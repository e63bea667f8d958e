/** Retain and release calls balance the contents of an array, over every run of operations. */
module ArrayRetain {
  import opened ArrayDeque

  /** How many retains of `v` are not yet released. */
  function Balance(events: seq<Event>, v: Value): int {
    if events == [] then 0
    else
      var last := events[|events| - 1];
      Balance(events[..|events| - 1], v)
        + (if last == Retain(v) then 1 else if last == Release(v) then -1 else 0)
  }

  lemma {:induction false} BalanceJoin(a: seq<Event>, b: seq<Event>, v: Value)
    ensures Balance(a + b, v) == Balance(a, v) + Balance(b, v)
  {
    if b == [] {
      assert a + b == a;
    } else {
      BalanceJoin(a, b[..|b| - 1], v);
      assert (a + b)[..|a + b| - 1] == a + b[..|b| - 1];
    }
  }

  lemma SplitLast<T>(s: seq<T>)
    requires s != []
    ensures multiset(s) == multiset(s[..|s| - 1]) + multiset{s[|s| - 1]}
  {
    assert s == s[..|s| - 1] + [s[|s| - 1]];
  }

  lemma {:induction false} BalanceOfRetains(vs: seq<Value>, v: Value)
    ensures Balance(RetainAll(vs), v) == multiset(vs)[v]
  {
    if vs != [] {
      var init := vs[..|vs| - 1];
      BalanceOfRetains(init, v);
      SplitLast(vs);
      assert RetainAll(vs)[..|vs| - 1] == RetainAll(init);
    }
  }

  lemma {:induction false} BalanceOfReleases(vs: seq<Value>, v: Value)
    ensures Balance(ReleaseAll(vs), v) == -(multiset(vs)[v] as int)
  {
    if vs != [] {
      var init := vs[..|vs| - 1];
      BalanceOfReleases(init, v);
      SplitLast(vs);
      assert ReleaseAll(vs)[..|vs| - 1] == ReleaseAll(init);
    }
  }

  /** Every value is held exactly as often as it occurs in the array. */
  ghost predicate Conserved(events: seq<Event>, c: seq<Value>) {
    forall v :: Balance(events, v) == multiset(c)[v]
  }

  datatype Op =
    | Replace(loc: nat, len: nat, values: seq<Value>)
    | Append(value: Value)
    | Insert(idx: nat, value: Value)
    | SetAt(idx: nat, value: Value)
    | Remove(idx: nat)
    | Exchange(i: nat, j: nat)
    | RemoveAll

  /** What an array with both callbacks is observed to be: its contents and its callback log. */
  datatype State = State(contents: seq<Value>, events: seq<Event>)

  predicate Allowed(c: seq<Value>, op: Op) {
    match op
    case Replace(loc, len, _) => loc + len <= |c|
    case Append(_) => true
    case Insert(idx, _) => idx <= |c|
    case SetAt(idx, _) => idx <= |c|
    case Remove(idx) => idx < |c|
    case Exchange(i, j) => i < |c| && j < |c|
    case RemoveAll => true
  }

  function Spliced(s: State, retained: Value -> Value, loc: nat, len: nat, values: seq<Value>): State
    requires loc + len <= |s.contents|
  {
    var newv := seq(|values|, i requires 0 <= i < |values| => retained(values[i]));
    State(s.contents[..loc] + newv + s.contents[loc + len..],
          s.events + RetainAll(newv) + ReleaseAll(s.contents[loc..loc + len]))
  }

  /** The effect of each operation, as the methods of MutableArray promise it. */
  function Step(s: State, retained: Value -> Value, op: Op): State
    requires Allowed(s.contents, op)
  {
    var c := s.contents;
    match op
    case Replace(loc, len, values) => Spliced(s, retained, loc, len, values)
    case Append(value) => Spliced(s, retained, |c|, 0, [value])
    case Insert(idx, value) => Spliced(s, retained, idx, 0, [value])
    case SetAt(idx, value) =>
      if idx == |c| then Spliced(s, retained, idx, 0, [value])
      else State(c[idx := retained(value)], s.events + [Retain(retained(value)), Release(c[idx])])
    case Remove(idx) => Spliced(s, retained, idx, 1, [])
    case Exchange(i, j) => State(c[i := c[j]][j := c[i]], s.events)
    case RemoveAll => State([], s.events + ReleaseAll(c))
  }

  ghost function Observed(a: MutableArray): State
    requires a.Shaped()
    reads a, a.store, if a.store == null then {} else {a.store.buckets}
  {
    State(a.Contents(), a.events)
  }

  /** The methods of an array with both callbacks do what `Step` says. */
  method Apply(a: MutableArray, op: Op)
    requires a.Valid() && a.retains && a.releases && Allowed(a.Contents(), op)
    requires a.count < MAX_COUNT && (op.Replace? ==> a.count + |op.values| <= MAX_COUNT)
    modifies a, a.store, if a.store == null then {} else {a.store.buckets}
    ensures a.Valid() && fresh(a.Repr() - old(a.Repr()))
    ensures Observed(a) == Step(old(Observed(a)), a.retained, op)
  {
    if op.Replace? || op.Append? {
      ApplySplice(a, op);
    } else if op.Insert? || op.Remove? {
      ApplyAtIndex(a, op);
    } else {
      ApplyInPlace(a, op);
    }
  }

  method ApplySplice(a: MutableArray, op: Op)
    requires a.Valid() && a.retains && a.releases && Allowed(a.Contents(), op) && a.count < MAX_COUNT
    requires op.Replace? || op.Append?
    requires op.Replace? ==> a.count + |op.values| <= MAX_COUNT
    modifies a, a.store, if a.store == null then {} else {a.store.buckets}
    ensures a.Valid() && fresh(a.Repr() - old(a.Repr()))
    ensures Observed(a) == Step(old(Observed(a)), a.retained, op)
  {
    if op.Replace? {
      ApplyReplace(a, op.loc, op.len, op.values);
    } else {
      ApplyAppend(a, op.value);
    }
  }

  method ApplyReplace(a: MutableArray, loc: nat, len: nat, values: seq<Value>)
    requires a.Valid() && a.retains && a.releases && loc + len <= a.count < MAX_COUNT
    requires a.count + |values| <= MAX_COUNT
    modifies a, a.store, if a.store == null then {} else {a.store.buckets}
    ensures a.Valid() && fresh(a.Repr() - old(a.Repr()))
    ensures Observed(a) == Step(old(Observed(a)), a.retained, Replace(loc, len, values))
  {
    hide Clean, Spliced, MutableArray.Contents;
    ghost var s := Observed(a);
    a.ReplaceValues(loc, len, values);
    SplicedIs(s, a.retained, loc, len, values, Observed(a));
  }

  /** A splice is known from its parts. */
  lemma SplicedIs(s: State, retained: Value -> Value, loc: nat, len: nat, values: seq<Value>, t: State)
    requires loc + len <= |s.contents| && |t.contents| == |s.contents| - len + |values|
    requires t.contents[..loc] == s.contents[..loc] && t.contents[loc + |values|..] == s.contents[loc + len..]
    requires forall j | loc <= j < loc + |values| :: t.contents[j] == retained(values[j - loc])
    requires |t.events| == |s.events| + |values| + len && t.events[..|s.events|] == s.events
    requires forall j | |s.events| <= j < |s.events| + |values| ::
               t.events[j] == Retain(retained(values[j - |s.events|]))
    requires forall j | |s.events| + |values| <= j < |t.events| ::
               t.events[j] == Release(s.contents[loc + j - |s.events| - |values|])
    ensures t == Spliced(s, retained, loc, len, values)
  {
    var newv := seq(|values|, i requires 0 <= i < |values| => retained(values[i]));
    var m, n := |s.events|, |s.events| + |values|;
    assert t.contents[loc..loc + |values|] == newv;
    assert t.contents == t.contents[..loc] + t.contents[loc..loc + |values|] + t.contents[loc + |values|..];
    assert t.events[m..n] == RetainAll(newv);
    assert t.events[n..] == ReleaseAll(s.contents[loc..loc + len]);
    assert t.events == t.events[..m] + t.events[m..n] + t.events[n..];
  }

  method ApplyAppend(a: MutableArray, value: Value)
    requires a.Valid() && a.retains && a.releases && a.count < MAX_COUNT
    modifies a, a.store, if a.store == null then {} else {a.store.buckets}
    ensures a.Valid() && fresh(a.Repr() - old(a.Repr()))
    ensures Observed(a) == Step(old(Observed(a)), a.retained, Append(value))
  {
    hide Clean;
    ghost var c := a.Contents();
    a.AppendValue(value);
    SpliceParts(c, |c|, 0);
  }

  method ApplyAtIndex(a: MutableArray, op: Op)
    requires a.Valid() && a.retains && a.releases && Allowed(a.Contents(), op) && a.count < MAX_COUNT
    requires op.Insert? || op.Remove?
    modifies a, a.store, if a.store == null then {} else {a.store.buckets}
    ensures a.Valid() && fresh(a.Repr() - old(a.Repr()))
    ensures Observed(a) == Step(old(Observed(a)), a.retained, op)
  {
    hide Clean;
    if op.Insert? {
      ApplyInsert(a, op.idx, op.value);
    } else {
      ApplyRemove(a, op.idx);
    }
  }

  method ApplyRemove(a: MutableArray, idx: nat)
    requires a.Valid() && a.retains && a.releases && idx < a.count < MAX_COUNT
    modifies a, a.store, if a.store == null then {} else {a.store.buckets}
    ensures a.Valid() && fresh(a.Repr() - old(a.Repr()))
    ensures Observed(a) == Step(old(Observed(a)), a.retained, Remove(idx))
  {
    hide Clean;
    ghost var c := a.Contents();
    a.RemoveValueAtIndex(idx);
    assert c[idx..idx + 1] == [c[idx]];
  }

  method ApplyInsert(a: MutableArray, idx: nat, value: Value)
    requires a.Valid() && a.retains && a.releases && idx <= a.count < MAX_COUNT
    modifies a, a.store, if a.store == null then {} else {a.store.buckets}
    ensures a.Valid() && fresh(a.Repr() - old(a.Repr()))
    ensures Observed(a) == Step(old(Observed(a)), a.retained, Insert(idx, value))
  {
    hide Clean;
    ghost var c := a.Contents();
    a.InsertValueAtIndex(idx, value);
    SpliceParts(c, idx, 0);
  }

  method ApplySet(a: MutableArray, idx: nat, value: Value)
    requires a.Valid() && a.retains && a.releases && idx <= a.count < MAX_COUNT
    modifies a, a.store, if a.store == null then {} else {a.store.buckets}
    ensures a.Valid() && fresh(a.Repr() - old(a.Repr()))
    ensures Observed(a) == Step(old(Observed(a)), a.retained, SetAt(idx, value))
  {
    hide Clean;
    ghost var c := a.Contents();
    a.SetValueAtIndex(idx, value);
    SpliceParts(c, |c|, 0);
  }

  /** The operations that are not splices. */
  method ApplyInPlace(a: MutableArray, op: Op)
    requires a.Valid() && a.retains && a.releases && Allowed(a.Contents(), op) && a.count < MAX_COUNT
    requires op.SetAt? || op.Exchange? || op.RemoveAll?
    modifies a, a.store, if a.store == null then {} else {a.store.buckets}
    ensures a.Valid() && fresh(a.Repr() - old(a.Repr()))
    ensures Observed(a) == Step(old(Observed(a)), a.retained, op)
  {
    hide Clean, RetainAll;
    if op.SetAt? {
      ApplySet(a, op.idx, op.value);
    } else if op.Exchange? {
      a.ExchangeValuesAtIndices(op.i, op.j);
    } else {
      ghost var c, log := a.Contents(), a.events;
      a.RemoveAllValues();
      assert a.events == log + ReleaseAll(c);
    }
  }

  lemma SpliceParts(c: seq<Value>, loc: nat, len: nat)
    requires loc + len <= |c|
    ensures c[|c|..] == [] && c[..|c|] == c && (len == 0 ==> c[loc..loc + len] == [])
    ensures ReleaseAll([]) == []
  {
  }

  lemma SpliceConserves(s: State, retained: Value -> Value, loc: nat, len: nat, values: seq<Value>)
    requires loc + len <= |s.contents| && Conserved(s.events, s.contents)
    ensures var s' := Spliced(s, retained, loc, len, values); Conserved(s'.events, s'.contents)
  {
    var c, s' := s.contents, Spliced(s, retained, loc, len, values);
    var newv := seq(|values|, i requires 0 <= i < |values| => retained(values[i]));
    var out := c[loc..loc + len];
    assert c == c[..loc] + out + c[loc + len..];
    forall v
      ensures Balance(s'.events, v) == multiset(s'.contents)[v]
    {
      BalanceJoin(s.events + RetainAll(newv), ReleaseAll(out), v);
      BalanceJoin(s.events, RetainAll(newv), v);
      BalanceOfRetains(newv, v);
      BalanceOfReleases(out, v);
      assert multiset(c)[v] == multiset(c[..loc])[v] + multiset(out)[v] + multiset(c[loc + len..])[v];
    }
  }

  lemma UpdateCounts(c: seq<Value>, idx: nat, x: Value, v: Value)
    requires idx < |c|
    ensures multiset(c[idx := x])[v] == multiset(c)[v] + multiset{x}[v] - multiset{c[idx]}[v]
  {
    assert c == c[..idx] + [c[idx]] + c[idx + 1..];
    assert c[idx := x] == c[..idx] + [x] + c[idx + 1..];
  }

  lemma SetConserves(s: State, idx: nat, x: Value)
    requires idx < |s.contents| && Conserved(s.events, s.contents)
    ensures Conserved(s.events + [Retain(x), Release(s.contents[idx])], s.contents[idx := x])
  {
    var c := s.contents;
    forall v
      ensures Balance(s.events + [Retain(x), Release(c[idx])], v) == multiset(c[idx := x])[v]
    {
      BalanceJoin(s.events, [Retain(x), Release(c[idx])], v);
      BalanceJoin([Retain(x)], [Release(c[idx])], v);
      assert [Retain(x), Release(c[idx])] == [Retain(x)] + [Release(c[idx])];
      UpdateCounts(c, idx, x, v);
    }
  }

  lemma ExchangeConserves(s: State, i: nat, j: nat)
    requires i < |s.contents| && j < |s.contents| && Conserved(s.events, s.contents)
    ensures Conserved(s.events, s.contents[i := s.contents[j]][j := s.contents[i]])
  {
    var c := s.contents;
    var swapped := c[i := c[j]][j := c[i]];
    forall v
      ensures Balance(s.events, v) == multiset(swapped)[v]
    {
      UpdateCounts(c, i, c[j], v);
      UpdateCounts(c[i := c[j]], j, c[i], v);
    }
  }

  lemma RemoveAllConserves(s: State)
    requires Conserved(s.events, s.contents)
    ensures Conserved(s.events + ReleaseAll(s.contents), [])
  {
    var c := s.contents;
    forall v
      ensures Balance(s.events + ReleaseAll(c), v) == 0
    {
      BalanceJoin(s.events, ReleaseAll(c), v);
      BalanceOfReleases(c, v);
    }
  }

  /** Each operation keeps the balance. */
  lemma StepConserves(s: State, retained: Value -> Value, op: Op)
    requires Allowed(s.contents, op) && Conserved(s.events, s.contents)
    ensures var s' := Step(s, retained, op); Conserved(s'.events, s'.contents)
  {
    hide Balance, Spliced;
    var c := s.contents;
    match op
    case Replace(loc, len, values) => SpliceConserves(s, retained, loc, len, values);
    case Append(value) => SpliceConserves(s, retained, |c|, 0, [value]);
    case Insert(idx, value) => SpliceConserves(s, retained, idx, 0, [value]);
    case Remove(idx) => SpliceConserves(s, retained, idx, 1, []);
    case SetAt(idx, value) =>
      if idx == |c| {
        SpliceConserves(s, retained, idx, 0, [value]);
      } else {
        SetConserves(s, idx, retained(value));
      }
    case Exchange(i, j) => ExchangeConserves(s, i, j);
    case RemoveAll => RemoveAllConserves(s);
  }

  /** A run of operations, each allowed when it comes. */
  ghost predicate IsRun(s: State, retained: Value -> Value, ops: seq<Op>)
    decreases |ops|
  {
    ops == [] || (Allowed(s.contents, ops[0]) && IsRun(Step(s, retained, ops[0]), retained, ops[1..]))
  }

  ghost function Run(s: State, retained: Value -> Value, ops: seq<Op>): State
    requires IsRun(s, retained, ops)
    decreases |ops|
  {
    if ops == [] then s else Run(Step(s, retained, ops[0]), retained, ops[1..])
  }

  /** A run whose counts stay below the largest. */
  ghost predicate RunFits(s: State, retained: Value -> Value, ops: seq<Op>)
    requires IsRun(s, retained, ops)
    decreases |ops|
  {
    ops == [] || (
      && |s.contents| < MAX_COUNT
      && (ops[0].Replace? ==> |s.contents| + |ops[0].values| <= MAX_COUNT)
      && RunFits(Step(s, retained, ops[0]), retained, ops[1..]))
  }

  /** Performs a run: the array and its log are what the run makes of them, and stay in balance. */
  method Perform(a: MutableArray, ops: seq<Op>)
    requires a.Valid() && a.retains && a.releases
    requires IsRun(Observed(a), a.retained, ops) && RunFits(Observed(a), a.retained, ops)
    modifies a.Repr()
    ensures a.Valid() && fresh(a.Repr() - old(a.Repr()))
    ensures Observed(a) == Run(old(Observed(a)), a.retained, ops)
    ensures old(Conserved(a.events, a.Contents())) ==> Conserved(a.events, a.Contents())
    decreases |ops|
  {
    hide Conserved, Step;
    ghost var s := Observed(a);
    if ops != [] {
      Apply(a, ops[0]);
      assert Observed(a) == Step(s, a.retained, ops[0]);
      if Conserved(s.events, s.contents) {
        StepConserves(s, a.retained, ops[0]);
      }
      Perform(a, ops[1..]);
    }
  }

  lemma {:induction false} RunConservesFrom(s: State, retained: Value -> Value, ops: seq<Op>)
    requires IsRun(s, retained, ops) && Conserved(s.events, s.contents)
    ensures var s' := Run(s, retained, ops); Conserved(s'.events, s'.contents)
    decreases |ops|
  {
    if ops != [] {
      StepConserves(s, retained, ops[0]);
      RunConservesFrom(Step(s, retained, ops[0]), retained, ops[1..]);
    }
  }

  /** Over every run from the empty array, what is retained and not released is what is stored. */
  lemma RunConserves(retained: Value -> Value, ops: seq<Op>)
    requires IsRun(State([], []), retained, ops)
    ensures var s := Run(State([], []), retained, ops); Conserved(s.events, s.contents)
  {
    RunConservesFrom(State([], []), retained, ops);
  }

  lemma {:induction false} PrefixOfRetains(events: seq<Event>, ups: seq<Value>, k: nat, v: Value)
    requires k <= |ups|
    ensures Balance(events + RetainAll(ups)[..k], v) >= Balance(events, v)
  {
    if k > 0 {
      PrefixOfRetains(events, ups, k - 1, v);
      var p, q := events + RetainAll(ups)[..k - 1], events + RetainAll(ups)[..k];
      assert q[..|q| - 1] == p;
    } else {
      assert events + RetainAll(ups)[..k] == events;
    }
  }

  lemma {:induction false} PrefixOfReleases(events: seq<Event>, downs: seq<Value>, k: nat, v: Value)
    requires k <= |downs|
    ensures Balance(events + ReleaseAll(downs)[..k], v) >= Balance(events + ReleaseAll(downs), v)
    decreases |downs| - k
  {
    if k < |downs| {
      PrefixOfReleases(events, downs, k + 1, v);
      var p, q := events + ReleaseAll(downs)[..k], events + ReleaseAll(downs)[..k + 1];
      assert q[..|q| - 1] == p;
    } else {
      assert ReleaseAll(downs)[..k] == ReleaseAll(downs);
    }
  }

  /**
    * Because a splice retains before it releases, a value is never held fewer times, at any moment
    * during the splice, than the smaller of before and after. One that stays is never let go.
    */
  lemma NeverReleasedEarly(s: State, retained: Value -> Value, loc: nat, len: nat, values: seq<Value>, k: nat, v: Value)
    requires loc + len <= |s.contents| && Conserved(s.events, s.contents)
    requires |s.events| <= k <= |Spliced(s, retained, loc, len, values).events|
    ensures var s' := Spliced(s, retained, loc, len, values);
      Balance(s'.events[..k], v) >= multiset(s.contents)[v] || Balance(s'.events[..k], v) >= multiset(s'.contents)[v]
  {
    hide Balance;
    var s' := Spliced(s, retained, loc, len, values);
    var newv := seq(|values|, i requires 0 <= i < |values| => retained(values[i]));
    var out := s.contents[loc..loc + len];
    var n := |s.events|;
    SpliceConserves(s, retained, loc, len, values);
    if k <= n + |newv| {
      PrefixOfRetains(s.events, newv, k - n, v);
      assert s'.events[..k] == s.events + RetainAll(newv)[..k - n];
    } else {
      PrefixOfReleases(s.events + RetainAll(newv), out, k - n - |newv|, v);
      assert s'.events[..k] == s.events + RetainAll(newv) + ReleaseAll(out)[..k - n - |newv|];
    }
  }
}
