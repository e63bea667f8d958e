/** The object graph handed to the writer, and `_flattenPlist`, which numbers its objects. */
module PlistFlatten {
  import opened PlistBytes
  import opened PlistTrees

  /** Objects have identity: the writer's tables compare pointers. */
  type Ref = nat

  /** The members of a dictionary are its keys followed by its values. */
  datatype Object = Single(s: Scalar) | Multi(tag: Tag, members: seq<Ref>)

  type Graph = map<Ref, Object>

  /** The object `r` stands for the value `t`; such an object cannot reach itself. */
  ghost predicate Represents(g: Graph, r: Ref, t: Tree)
    decreases t
  {
    && r in g
    && match g[r]
       case Single(s) => t == Leaf(s)
       case Multi(tag, members) =>
         && t.Node? && t.tag == tag && |t.kids| == |members|
         && (tag == DictTag ==> |members| % 2 == 0)
         && forall i | 0 <= i < |members| :: Represents(g, members[i], t.kids[i])
  }

  /** Strings, numbers, dates and data are put in the uniquing set. */
  predicate Uniqued(o: Object) {
    o.Single? && !o.s.Null? && !o.s.Bool? && !o.s.UID?
  }

  /** The kinds of containers whose members are visited and written. */
  predicate Walked(o: Object) {
    o.Multi? && o.tag != SetTag
  }

  /** `objlist`, `objtable` and `uniquingset`. */
  datatype Flat = Flat(objlist: seq<Ref>, objtable: map<Ref, nat>, uniquing: set<Ref>)

  const EMPTY: Flat := Flat([], map[], {})

  function AddObject(st: Flat, r: Ref, o: Object): Flat {
    Flat(
      st.objlist + [r],
      if r in st.objtable then st.objtable else st.objtable[r := |st.objlist|],
      if Uniqued(o) then st.uniquing + {r} else st.uniquing)
  }

  /** The tables after visiting `r`. */
  ghost function Flattened(g: Graph, r: Ref, t: Tree, st: Flat): Flat
    requires Represents(g, r, t)
    decreases t, if t.Node? then |t.kids| + 1 else 0
  {
    if Uniqued(g[r]) && r in st.uniquing then st
    else if Walked(g[r]) then FlattenedMembers(g, r, t, |t.kids|, AddObject(st, r, g[r]))
    else AddObject(st, r, g[r])
  }

  /** The tables after visiting the first `n` members of `r`. */
  ghost function FlattenedMembers(g: Graph, r: Ref, t: Tree, n: nat, st: Flat): Flat
    requires Represents(g, r, t) && t.Node? && n <= |t.kids|
    decreases t, n
  {
    if n == 0 then st
    else Flattened(g, g[r].members[n - 1], t.kids[n - 1], FlattenedMembers(g, r, t, n - 1, st))
  }

  class Flattener {
    var objlist: seq<Ref>
    var objtable: map<Ref, nat>
    var uniquingset: set<Ref>

    constructor ()
      ensures Tables() == EMPTY
    {
      objlist, objtable, uniquingset := [], map[], {};
    }

    function Tables(): Flat
      reads this
    {
      Flat(objlist, objtable, uniquingset)
    }

    /** `_flattenPlist`. The graph may share objects, but a value must exist. */
    method Flatten(g: Graph, plist: Ref, ghost t: Tree)
      requires Represents(g, plist, t)
      modifies this
      ensures Tables() == Flattened(g, plist, t, old(Tables()))
      decreases t
    {
      if Uniqued(g[plist]) {
        var before := uniquingset;
        uniquingset := uniquingset + {plist};
        if uniquingset == before {
          // already in the set; pointer equality makes the stored object `plist` itself
          assert plist in before;
          return;
        }
      }
      var refnum := |objlist|;
      objlist := objlist + [plist];
      if plist !in objtable {
        objtable := objtable[plist := refnum];
      }
      ghost var entered := Tables();
      assert entered == AddObject(old(Tables()), plist, g[plist]);
      if Walked(g[plist]) {
        var list := g[plist].members;
        for idx := 0 to |list|
          invariant Tables() == FlattenedMembers(g, plist, t, idx, entered)
        {
          Flatten(g, list[idx], t.kids[idx]);
        }
      }
    }
  }

  /** The table gives each listed object the number of its first appearance. */
  ghost predicate Consistent(g: Graph, st: Flat) {
    && (forall q | q in st.objtable :: st.objtable[q] < |st.objlist| && st.objlist[st.objtable[q]] == q)
    && (forall i | 0 <= i < |st.objlist| :: st.objlist[i] in st.objtable && st.objtable[st.objlist[i]] <= i)
    && (forall q :: q in st.uniquing ==> q in st.objtable)
    && (forall q :: q in st.objtable ==> q in g && (Uniqued(g[q]) ==> q in st.uniquing))
  }

  /** Nothing that was numbered is renumbered. */
  ghost predicate Extends(st: Flat, st': Flat) {
    && st.objlist <= st'.objlist
    && (forall q :: q in st.objtable ==> q in st'.objtable && st'.objtable[q] == st.objtable[q])
    && st.uniquing <= st'.uniquing
  }

  ghost predicate AllNumbered(g: Graph, r: Ref, objtable: map<Ref, nat>) {
    r in g && (Walked(g[r]) ==> forall i | 0 <= i < |g[r].members| :: g[r].members[i] in objtable)
  }

  /** The objects listed from position `from` on have all their members numbered. */
  ghost predicate MembersNumbered(g: Graph, st: Flat, from: nat) {
    forall i | from <= i < |st.objlist| :: AllNumbered(g, st.objlist[i], st.objtable)
  }

  /** Strings, numbers, dates and data are listed once each. */
  ghost predicate NoRepeats(g: Graph, st: Flat) {
    forall i, j | 0 <= i < j < |st.objlist| && st.objlist[i] == st.objlist[j] ::
      st.objlist[i] in g && !Uniqued(g[st.objlist[i]])
  }

  lemma AddConsistent(g: Graph, st: Flat, r: Ref)
    requires r in g && Consistent(g, st)
    ensures Consistent(g, AddObject(st, r, g[r]))
  {
    var st' := AddObject(st, r, g[r]);
    forall q | q in st'.objtable
      ensures st'.objtable[q] < |st'.objlist| && st'.objlist[st'.objtable[q]] == q
    {
      assert q in st.objtable || q == r;
    }
    forall i | 0 <= i < |st'.objlist|
      ensures st'.objlist[i] in st'.objtable && st'.objtable[st'.objlist[i]] <= i
    {
      assert i < |st.objlist| ==> st'.objlist[i] == st.objlist[i];
    }
  }

  lemma AddNoRepeats(g: Graph, st: Flat, r: Ref)
    requires r in g && Consistent(g, st) && NoRepeats(g, st)
    requires !(Uniqued(g[r]) && r in st.uniquing)
    ensures NoRepeats(g, AddObject(st, r, g[r]))
  {
    var st' := AddObject(st, r, g[r]);
    forall i, j | 0 <= i < j < |st'.objlist| && st'.objlist[i] == st'.objlist[j]
      ensures st'.objlist[i] in g && !Uniqued(g[st'.objlist[i]])
    {
      assert st'.objlist[i] == st.objlist[i];
      if j == |st.objlist| {
        assert st.objlist[i] in st.objtable;
      } else {
        assert st'.objlist[j] == st.objlist[j];
      }
    }
  }

  lemma AddKeeps(g: Graph, st: Flat, r: Ref)
    requires r in g && Consistent(g, st) && NoRepeats(g, st)
    requires !(Uniqued(g[r]) && r in st.uniquing)
    ensures Consistent(g, AddObject(st, r, g[r])) && NoRepeats(g, AddObject(st, r, g[r]))
    ensures Extends(st, AddObject(st, r, g[r])) && r in AddObject(st, r, g[r]).objtable
  {
    AddConsistent(g, st, r);
    AddNoRepeats(g, st, r);
  }

  lemma ExtendsTransitive(a: Flat, b: Flat, c: Flat)
    requires Extends(a, b) && Extends(b, c)
    ensures Extends(a, c)
  {
  }

  lemma NumberedJoin(g: Graph, mid: Flat, st: Flat, from: nat)
    requires Extends(mid, st) && from <= |mid.objlist|
    requires MembersNumbered(g, mid, from) && MembersNumbered(g, st, |mid.objlist|)
    ensures MembersNumbered(g, st, from)
  {
    forall i | from <= i < |st.objlist|
      ensures AllNumbered(g, st.objlist[i], st.objtable)
    {
      if i < |mid.objlist| {
        assert mid.objlist[i] == st.objlist[i];
        assert AllNumbered(g, mid.objlist[i], mid.objtable);
      }
    }
  }

  /** From `st` to `st'`: only additions, and everything added is complete. */
  ghost predicate SoundStep(g: Graph, st: Flat, st': Flat) {
    && Consistent(g, st') && NoRepeats(g, st') && Extends(st, st')
    && MembersNumbered(g, st', |st.objlist|)
  }

  lemma SoundJoin(g: Graph, st: Flat, mid: Flat, st': Flat)
    requires SoundStep(g, st, mid) && SoundStep(g, mid, st')
    ensures SoundStep(g, st, st')
  {
    ExtendsTransitive(st, mid, st');
    NumberedJoin(g, mid, st', |st.objlist|);
  }

  lemma SoundEntry(g: Graph, st: Flat, r: Ref, st': Flat)
    requires r in g && Extends(st, AddObject(st, r, g[r]))
    requires SoundStep(g, AddObject(st, r, g[r]), st')
    requires AllNumbered(g, r, st'.objtable)
    ensures SoundStep(g, st, st')
  {
    var st1 := AddObject(st, r, g[r]);
    ExtendsTransitive(st, st1, st');
    forall i | |st.objlist| <= i < |st'.objlist|
      ensures AllNumbered(g, st'.objlist[i], st'.objtable)
    {
      if i == |st.objlist| {
        assert st'.objlist[i] == st1.objlist[i] == r;
      }
    }
  }

  /** What one visit of `_flattenPlist` guarantees. */
  lemma {:induction false} FlattenedIsSound(g: Graph, r: Ref, t: Tree, st: Flat)
    requires Represents(g, r, t) && Consistent(g, st) && NoRepeats(g, st)
    ensures SoundStep(g, st, Flattened(g, r, t, st)) && r in Flattened(g, r, t, st).objtable
    decreases t, if t.Node? then |t.kids| + 1 else 0
  {
    if Uniqued(g[r]) && r in st.uniquing {
    } else {
      AddKeeps(g, st, r);
      var st1 := AddObject(st, r, g[r]);
      if Walked(g[r]) {
        FlattenedMembersAreSound(g, r, t, |t.kids|, st1);
        MembersAreNumbered(g, r, t, |t.kids|, st1);
        SoundEntry(g, st, r, FlattenedMembers(g, r, t, |t.kids|, st1));
      } else {
        SoundEntry(g, st, r, st1);
      }
    }
  }

  lemma {:induction false} FlattenedMembersAreSound(g: Graph, r: Ref, t: Tree, n: nat, st: Flat)
    requires Represents(g, r, t) && t.Node? && n <= |t.kids| && Consistent(g, st) && NoRepeats(g, st)
    ensures SoundStep(g, st, FlattenedMembers(g, r, t, n, st))
    decreases t, n
  {
    if n > 0 {
      FlattenedMembersAreSound(g, r, t, n - 1, st);
      var mid := FlattenedMembers(g, r, t, n - 1, st);
      FlattenedIsSound(g, g[r].members[n - 1], t.kids[n - 1], mid);
      SoundJoin(g, st, mid, FlattenedMembers(g, r, t, n, st));
    }
  }

  lemma {:induction false} MembersAreNumbered(g: Graph, r: Ref, t: Tree, n: nat, st: Flat)
    requires Represents(g, r, t) && t.Node? && n <= |t.kids| && Consistent(g, st) && NoRepeats(g, st)
    ensures forall i | 0 <= i < n :: g[r].members[i] in FlattenedMembers(g, r, t, n, st).objtable
    decreases t, n, 0
  {
    hide AllNumbered, MembersNumbered, NoRepeats;
    if n > 0 {
      MembersAreNumbered(g, r, t, n - 1, st);
      FlattenedMembersAreSound(g, r, t, n - 1, st);
      FlattenedIsSound(g, g[r].members[n - 1], t.kids[n - 1], FlattenedMembers(g, r, t, n - 1, st));
    }
  }

  /** The top object is listed first, so the trailer's top object is 0. */
  lemma TopIsFirst(g: Graph, r: Ref, t: Tree)
    requires Represents(g, r, t)
    ensures var st := Flattened(g, r, t, EMPTY);
      && Consistent(g, st) && NoRepeats(g, st) && MembersNumbered(g, st, 0)
      && |st.objlist| > 0 && st.objlist[0] == r && r in st.objtable && st.objtable[r] == 0
  {
    FlattenedIsSound(g, r, t, EMPTY);
    var st1 := AddObject(EMPTY, r, g[r]);
    AddKeeps(g, EMPTY, r);
    if Walked(g[r]) {
      FlattenedMembersAreSound(g, r, t, |t.kids|, st1);
    }
    assert Extends(st1, Flattened(g, r, t, EMPTY));
    assert st1.objlist[0] == r;
  }

  /** Only containers, booleans, nulls and UIDs are ever listed twice: the uniquing set has all other leaves. */
  lemma ListedTwice(g: Graph, r: Ref, t: Tree, i: nat, j: nat)
    requires Represents(g, r, t)
    requires var list := Flattened(g, r, t, EMPTY).objlist; i < j < |list| && list[i] == list[j]
    ensures var q := Flattened(g, r, t, EMPTY).objlist[i];
      q in g && (g[q].Multi? || g[q].s.Bool? || g[q].s.Null? || g[q].s.UID?)
  {
    TopIsFirst(g, r, t);
  }

  /** The members of a container are listed behind it in their order. */
  lemma MembersInOrder(g: Graph, r: Ref, t: Tree)
    requires Represents(g, r, t) && Walked(g[r])
    requires forall i | 0 <= i < |g[r].members| :: g[r].members[i] in g && g[g[r].members[i]].Single?
    requires forall i, j | 0 <= i < j < |g[r].members| :: g[r].members[i] != g[r].members[j]
    ensures Flattened(g, r, t, EMPTY).objlist == [r] + g[r].members
  {
    LeavesInOrder(g, r, t, |t.kids|);
    assert g[r].members[..|t.kids|] == g[r].members;
  }

  lemma {:induction false} LeavesInOrder(g: Graph, r: Ref, t: Tree, n: nat)
    requires Represents(g, r, t) && Walked(g[r]) && n <= |t.kids|
    requires forall i | 0 <= i < |g[r].members| :: g[r].members[i] in g && g[g[r].members[i]].Single?
    requires forall i, j | 0 <= i < j < |g[r].members| :: g[r].members[i] != g[r].members[j]
    ensures var st := FlattenedMembers(g, r, t, n, AddObject(EMPTY, r, g[r]));
      st.objlist == [r] + g[r].members[..n] && forall q | q in st.uniquing :: q in g[r].members[..n]
  {
    if n > 0 {
      LeavesInOrder(g, r, t, n - 1);
      assert g[r].members[..n] == g[r].members[..n - 1] + [g[r].members[n - 1]];
    }
  }

  predicate WritableObject(o: Object) {
    match o
    case Single(s) => !s.Null?
    case Multi(tag, _) => tag != SetTag
  }

  predicate ObjectInRange(o: Object) {
    match o
    case Single(s) => ScalarInRange(s)
    case Multi(tag, members) => |members| < TWO_64 && (tag == DictTag ==> |members| % 2 == 0)
  }

  /** Some object listed from position `from` on is of a kind the writer refuses. */
  ghost predicate HasUnwritable(g: Graph, st: Flat, from: nat) {
    exists i :: from <= i < |st.objlist| && st.objlist[i] in g && !WritableObject(g[st.objlist[i]])
  }

  ghost predicate EntriesInRange(g: Graph, st: Flat, from: nat) {
    forall i | from <= i < |st.objlist| :: st.objlist[i] in g && ObjectInRange(g[st.objlist[i]])
  }

  lemma UnwritableJoin(g: Graph, mid: Flat, st: Flat, from: nat)
    requires Extends(mid, st) && from <= |mid.objlist|
    ensures HasUnwritable(g, st, from) <==> HasUnwritable(g, mid, from) || HasUnwritable(g, st, |mid.objlist|)
    ensures EntriesInRange(g, mid, from) && EntriesInRange(g, st, |mid.objlist|) ==> EntriesInRange(g, st, from)
  {
    assert forall i | 0 <= i < |mid.objlist| :: mid.objlist[i] == st.objlist[i];
    if HasUnwritable(g, mid, from) {
      var i :| from <= i < |mid.objlist| && mid.objlist[i] in g && !WritableObject(g[mid.objlist[i]]);
      assert st.objlist[i] == mid.objlist[i];
    }
    if HasUnwritable(g, st, from) && !HasUnwritable(g, st, |mid.objlist|) {
      var i :| from <= i < |st.objlist| && st.objlist[i] in g && !WritableObject(g[st.objlist[i]]);
      assert mid.objlist[i] == st.objlist[i];
    }
  }

  lemma AddReflects(g: Graph, st: Flat, r: Ref)
    requires r in g
    ensures var st1 := AddObject(st, r, g[r]);
      && (HasUnwritable(g, st1, |st.objlist|) <==> !WritableObject(g[r]))
      && (EntriesInRange(g, st1, |st.objlist|) <==> ObjectInRange(g[r]))
  {
    assert AddObject(st, r, g[r]).objlist[|st.objlist|] == r;
  }

  /** A value is writable exactly when every object listed for it is of a supported kind. */
  lemma {:induction false} EntriesReflectTree(g: Graph, r: Ref, t: Tree, st: Flat)
    requires Represents(g, r, t) && Consistent(g, st) && NoRepeats(g, st)
    ensures var st' := Flattened(g, r, t, st);
      && (HasUnwritable(g, st', |st.objlist|) <==> !Writable(t))
      && (InRange(t) ==> EntriesInRange(g, st', |st.objlist|))
    decreases t, if t.Node? then |t.kids| + 1 else 0
  {
    if Uniqued(g[r]) && r in st.uniquing {
    } else {
      AddKeeps(g, st, r);
      AddReflects(g, st, r);
      if Walked(g[r]) {
        var st1 := AddObject(st, r, g[r]);
        MembersReflectTree(g, r, t, |t.kids|, st1);
        FlattenedMembersAreSound(g, r, t, |t.kids|, st1);
        UnwritableJoin(g, st1, FlattenedMembers(g, r, t, |t.kids|, st1), |st.objlist|);
      }
    }
  }

  lemma MemberStep(g: Graph, r: Ref, t: Tree, n: nat, st: Flat)
    requires Represents(g, r, t) && t.Node? && 0 < n <= |t.kids| && Consistent(g, st) && NoRepeats(g, st)
    ensures var mid := FlattenedMembers(g, r, t, n - 1, st);
      && Consistent(g, mid) && NoRepeats(g, mid) && Extends(mid, FlattenedMembers(g, r, t, n, st))
      && |st.objlist| <= |mid.objlist|
  {
    FlattenedMembersAreSound(g, r, t, n - 1, st);
    FlattenedIsSound(g, g[r].members[n - 1], t.kids[n - 1], FlattenedMembers(g, r, t, n - 1, st));
  }

  ghost predicate FirstWritable(t: Tree, n: nat)
    requires t.Node? && n <= |t.kids|
  {
    forall i | 0 <= i < n :: Writable(t.kids[i])
  }

  lemma {:induction false} MembersReflectTree(g: Graph, r: Ref, t: Tree, n: nat, st: Flat)
    requires Represents(g, r, t) && t.Node? && n <= |t.kids| && Consistent(g, st) && NoRepeats(g, st)
    ensures HasUnwritable(g, FlattenedMembers(g, r, t, n, st), |st.objlist|) <==> !FirstWritable(t, n)
    ensures InRange(t) ==> EntriesInRange(g, FlattenedMembers(g, r, t, n, st), |st.objlist|)
    decreases t, n
  {
    if n > 0 {
      MemberStep(g, r, t, n, st);
      var mid := FlattenedMembers(g, r, t, n - 1, st);
      MembersReflectTree(g, r, t, n - 1, st);
      EntriesReflectTree(g, g[r].members[n - 1], t.kids[n - 1], mid);
      UnwritableJoin(g, mid, FlattenedMembers(g, r, t, n, st), |st.objlist|);
      assert FirstWritable(t, n) <==> FirstWritable(t, n - 1) && Writable(t.kids[n - 1]);
    }
  }
}
