/**
 Descriptors of files, archives and archive members: opening shares descriptors, and the last
 release of a descriptor releases its archive in turn.
 */
module ElfArchive {
  import opened Basics
  import opened ElfTypes
  import opened ElfArchiveHeaders

  datatype BeginError = NoError | NoCommand | InvalidCommand | CommandMismatch | MemberWrite | FdMismatch | NoMember
    | NoFile

  /** How a descriptor was opened: its file, what it may be used for, and whether it is an image in memory. */
  datatype Access = Access(fd: int, readable: bool, writable: bool, memory: bool)

  class Descriptor {
    const access: Access
    const parent: Descriptor?
    const base: nat
    const data: seq<byte>
    const next: nat
    const isArchive: bool
    const stringTable: Option<seq<byte>>
    ghost const depth: nat

    var count: nat
    var off: nat
    var members: Descriptor?
    var link: Descriptor?

    /** The kind of the descriptor is found from its first bytes. */
    constructor (access: Access, parent: Descriptor?, base: nat, data: seq<byte>, next: nat)
      ensures this.access == access
      ensures this.parent == parent && this.base == base && this.data == data && this.next == next && Checked()
      ensures depth == if parent == null then 0 else parent.depth + 1
      ensures count == 1 && members == null && link == null && off == if isArchive then SARMAG else 0
    {
      this.access, this.parent, this.base, this.data, this.next := access, parent, base, data, next;
      isArchive := IsArchive(data);
      depth := if parent == null then 0 else parent.depth + 1;
      count, members, link := 1, null, null;
      off := if IsArchive(data) then SARMAG else 0;
      var table := FindStringTable(data);
      stringTable := if IsArchive(data) then table else None;
    }

    ghost predicate Checked() {
      isArchive == IsArchive(data) && stringTable == if isArchive then StringTable(data, SARMAG) else None
    }
  }

  /** The handles that callers have of a descriptor, and its open members, the latest first. */
  datatype Open = Open(handles: nat, members: seq<Descriptor>)

  type Model = map<Descriptor, Open>

  function First(s: seq<Descriptor>): Descriptor? {
    if s == [] then null else s[0]
  }

  function After(s: seq<Descriptor>, i: nat): Descriptor?
    requires i < |s|
  {
    if i + 1 < |s| then s[i + 1] else null
  }

  predicate NoBase(s: seq<Descriptor>, base: nat) {
    forall i {:trigger s[i]} :: 0 <= i < |s| ==> s[i].base != base
  }

  /** No two open members are at the same place. */
  predicate Distinct(s: seq<Descriptor>) {
    s == [] || (NoBase(s[1..], s[0].base) && Distinct(s[1..]))
  }

  lemma {:induction false} DistinctAt(s: seq<Descriptor>, i: nat, j: nat)
    requires Distinct(s) && i < j < |s|
    ensures s[i].base != s[j].base
  {
    if i > 0 {
      DistinctAt(s[1..], i - 1, j - 1);
    } else {
      assert s[j] == s[1..][j - 1];
    }
  }

  lemma {:induction false} DistinctWithout(s: seq<Descriptor>, i: nat)
    requires Distinct(s) && i < |s|
    ensures Distinct(Without(s, i))
  {
    if i > 0 {
      DistinctWithout(s[1..], i - 1);
      assert Without(s, i) == [s[0]] + Without(s[1..], i - 1);
      assert Without(s, i)[1..] == Without(s[1..], i - 1);
    } else {
      assert Without(s, 0) == s[1..];
    }
  }

  /** The members of a descriptor are open, theirs, and at different places. */
  ghost predicate Family(m: Model, e: Descriptor)
    requires e in m
  {
    && Distinct(m[e].members) && (m[e].members != [] ==> e.isArchive)
    && forall i {:trigger m[e].members[i]} :: 0 <= i < |m[e].members| ==>
         var c := m[e].members[i]; c in m && c.parent == e && c.depth == e.depth + 1
  }

  /** An open member's archive is open and knows it. */
  ghost predicate Child(m: Model, e: Descriptor) {
    e.parent != null ==> e.parent in m && e in m[e.parent].members
  }

  /** Whatever is open has a handle or an open member, save for one that is being released. */
  ghost predicate Needed(m: Model, e: Descriptor)
    requires e in m
  {
    m[e].handles > 0 || m[e].members != []
  }

  ghost predicate Tree(m: Model) {
    && (forall e {:trigger Family(m, e)} :: e in m ==> Family(m, e))
    && (forall e {:trigger Child(m, e)} :: e in m ==> Child(m, e))
  }

  /** The archive of an open member is open, and no two open members of an archive are at the same place. */
  lemma WhatIsOpen(m: Model, e: Descriptor)
    requires Tree(m) && e in m
    ensures e.parent != null ==> e.parent in m && e.parent.isArchive && e in m[e.parent].members
    ensures forall i, j :: 0 <= i < j < |m[e].members| ==> m[e].members[i].base != m[e].members[j].base
    ensures forall c {:trigger c in m} :: c in m && c.parent == e ==> c in m[e].members
  {
    assert Family(m, e) && Child(m, e);
    if e.parent != null {
      assert Family(m, e.parent);
    }
    forall i, j | 0 <= i < j < |m[e].members|
      ensures m[e].members[i].base != m[e].members[j].base
    {
      DistinctAt(m[e].members, i, j);
    }
    forall c {:trigger c in m} | c in m && c.parent == e
      ensures c in m[e].members
    {
      assert Child(m, c);
    }
  }

  // ----- One step -----

  function Shared(m: Model, e: Descriptor): Model
    requires e in m
  {
    m[e := Open(m[e].handles + 1, m[e].members)]
  }

  function Joined(m: Model, ref: Descriptor, e: Descriptor): Model
    requires ref in m
  {
    m[ref := Open(m[ref].handles, [e] + m[ref].members)][e := Open(1, [])]
  }

  lemma SharedTree(m: Model, e: Descriptor)
    requires e in m && Tree(m)
    ensures Tree(Shared(m, e))
  {
    var n := Shared(m, e);
    forall d {:trigger d in n} | d in n
      ensures Family(n, d) && Child(n, d)
    {
      assert Family(m, d) && Child(m, d) && n[d].members == m[d].members;
    }
  }

  lemma JoinedFamily(m: Model, ref: Descriptor, e: Descriptor)
    requires Tree(m) && ref in m && e !in m && ref.isArchive
    requires e.parent == ref && e.depth == ref.depth + 1 && NoBase(m[ref].members, e.base)
    ensures Family(Joined(m, ref, e), ref)
  {
    var n, was := Joined(m, ref, e), m[ref].members;
    assert Family(m, ref) && n[ref].members == [e] + was && n[ref].members[1..] == was;
    forall i {:trigger n[ref].members[i]} | 0 <= i < |n[ref].members|
      ensures var c := n[ref].members[i]; c in n && c.parent == ref && c.depth == ref.depth + 1
    {
      if i > 0 {
        assert n[ref].members[i] == was[i - 1];
      }
    }
  }

  lemma JoinedTree(m: Model, ref: Descriptor, e: Descriptor)
    requires Tree(m) && ref in m && e !in m && ref.isArchive
    requires e.parent == ref && e.depth == ref.depth + 1 && NoBase(m[ref].members, e.base)
    ensures Tree(Joined(m, ref, e))
  {
    var n := Joined(m, ref, e);
    JoinedFamily(m, ref, e);
    forall d {:trigger d in n} | d in n
      ensures Family(n, d) && Child(n, d)
    {
      if d == e {
        assert n[ref].members[0] == e;
      } else {
        assert Family(m, d) && Child(m, d);
        if d.parent == ref {
          var i :| 0 <= i < |m[ref].members| && m[ref].members[i] == d;
          assert n[ref].members[i + 1] == d;
        }
      }
    }
  }

  function IndexOf(s: seq<Descriptor>, e: Descriptor): (i: nat)
    requires e in s
    ensures i < |s| && s[i] == e
  {
    if s[0] == e then 0 else 1 + IndexOf(s[1..], e)
  }

  /** `e` leaves its archive and is gone. */
  function Left(m: Model, e: Descriptor): Model
    requires e in m && e.parent != null && e.parent in m && e in m[e.parent].members
  {
    var was := m[e.parent].members;
    m[e.parent := Open(m[e.parent].handles, Without(was, IndexOf(was, e)))] - {e}
  }

  lemma LeftFamily(m: Model, e: Descriptor)
    requires Tree(m) && e in m && e.parent != null && e.parent in m && e in m[e.parent].members && e.parent != e
    ensures Family(Left(m, e), e.parent)
  {
    var p, n := e.parent, Left(m, e);
    var was := m[p].members;
    var at := IndexOf(was, e);
    assert Family(m, p);
    DistinctWithout(was, at);
    forall i {:trigger n[p].members[i]} | 0 <= i < |n[p].members|
      ensures var c := n[p].members[i]; c in n && c.parent == p && c.depth == p.depth + 1
    {
      var j := if i < at then i else i + 1;
      assert n[p].members[i] == was[j];
      if i < at {
        DistinctAt(was, i, at);
      } else {
        DistinctAt(was, at, j);
      }
    }
  }

  lemma ParentDiffers(m: Model, e: Descriptor)
    requires Tree(m) && e in m && e.parent != null
    ensures e.parent in m && e in m[e.parent].members && e.depth == e.parent.depth + 1 && e.parent != e
  {
    assert Child(m, e) && Family(m, e.parent);
    var i :| 0 <= i < |m[e.parent].members| && m[e.parent].members[i] == e;
  }

  lemma LeftTree(m: Model, e: Descriptor)
    requires Tree(m) && e in m && m[e].members == [] && e.parent != null
    ensures e.parent in m && e in m[e.parent].members && Tree(Left(m, e))
  {
    ParentDiffers(m, e);
    var p, n := e.parent, Left(m, e);
    LeftFamily(m, e);
    forall d {:trigger d in n} | d in n
      ensures Family(n, d) && Child(n, d)
    {
      assert Family(m, d) && Child(m, d);
      if d != p {
        OtherFamily(m, e, d);
      }
      if d.parent != null {
        OtherChild(m, e, d);
      }
    }
  }

  lemma OtherFamily(m: Model, e: Descriptor, d: Descriptor)
    requires Tree(m) && e in m && e.parent != null && e.parent in m && e in m[e.parent].members && d in m && d != e
             && d != e.parent
    ensures Family(Left(m, e), d)
  {
    var n := Left(m, e);
    assert Family(m, d);
    forall i {:trigger n[d].members[i]} | 0 <= i < |n[d].members|
      ensures var c := n[d].members[i]; c in n && c.parent == d && c.depth == d.depth + 1
    {
      assert n[d].members[i] == m[d].members[i];
    }
  }

  lemma OtherChild(m: Model, e: Descriptor, d: Descriptor)
    requires Tree(m) && e in m && m[e].members == [] && e.parent != null && e.parent in m && e in m[e.parent].members
    requires d in m && d != e && d.parent != null
    ensures Child(Left(m, e), d)
  {
    var n, p := Left(m, e), d.parent;
    assert Child(m, d);
    var j :| 0 <= j < |m[p].members| && m[p].members[j] == d;
    if p == e.parent {
      var at := IndexOf(m[p].members, e);
      assert n[p].members[if j < at then j else j - 1] == d;
    }
  }

  /** What is left after `e` lost a handle or a member: a descriptor without either is released, and its
      archive loses a member. */
  function Closing(m: Model, e: Descriptor): Model
    requires Tree(m) && e in m
    decreases e.depth
  {
    if m[e].handles > 0 || m[e].members != [] then m
    else if e.parent == null then m - {e}
    else
      LeftTree(m, e);
      ParentDiffers(m, e);
      Closing(Left(m, e), e.parent)
  }

  /** A descriptor is released exactly if it has neither handles nor members that stay open. */
  ghost predicate ReleasedExactly(m: Model, r: Model) {
    && Tree(r) && (forall d {:trigger d in r} :: d in r ==> d in m && Needed(r, d) && r[d].handles == m[d].handles)
    && (forall d {:trigger d in m} :: d in m && d !in r ==> m[d].handles == 0)
    && (forall c {:trigger c in r} :: c in r && c.parent != null ==> c.parent in r)
  }

  lemma {:induction false} ClosingReleasesExactly(m: Model, e: Descriptor)
    requires Tree(m) && e in m && forall d {:trigger d in m} :: d in m && d != e ==> Needed(m, d)
    ensures ReleasedExactly(m, Closing(m, e))
    decreases e.depth
  {
    if m[e].handles > 0 || m[e].members != [] {
      NothingReleased(m);
    } else if e.parent == null {
      GoneTree(m, e);
      NothingReleased(m - {e});
      OneReleased(m, e, m - {e}, m - {e});
    } else {
      LeftTree(m, e);
      ParentDiffers(m, e);
      var n := Left(m, e);
      ClosingReleasesExactly(n, e.parent);
      OneReleased(m, e, n, Closing(n, e.parent));
    }
  }

  lemma NothingReleased(m: Model)
    requires Tree(m) && forall d {:trigger d in m} :: d in m ==> Needed(m, d)
    ensures ReleasedExactly(m, m)
  {
    forall c {:trigger c in m} | c in m && c.parent != null
      ensures c.parent in m
    {
      assert Child(m, c);
    }
  }

  lemma OneReleased(m: Model, e: Descriptor, n: Model, r: Model)
    requires e in m && m[e].handles == 0 && ReleasedExactly(n, r) && n.Keys == m.Keys - {e}
    requires forall d {:trigger d in n} :: d in n ==> n[d].handles == m[d].handles
    ensures ReleasedExactly(m, r)
  {
    forall d {:trigger d in m} | d in m && d !in r
      ensures m[d].handles == 0
    {
      assert d in n.Keys || d == e;
    }
  }

  lemma GoneTree(m: Model, e: Descriptor)
    requires Tree(m) && e in m && m[e].members == [] && e.parent == null
    ensures Tree(m - {e})
  {
    var n := m - {e};
    forall d {:trigger d in n} | d in n
      ensures Family(n, d) && Child(n, d)
    {
      assert Family(m, d) && Child(m, d);
      forall i {:trigger n[d].members[i]} | 0 <= i < |n[d].members|
        ensures var c := n[d].members[i]; c in n && c.parent == d && c.depth == d.depth + 1
      {
        assert n[d].members[i] == m[d].members[i];
      }
    }
  }

  // ----- The descriptors in memory -----

  ghost predicate CountsRight(m: Model, pending: Descriptor?)
    reads m.Keys`count
  {
    forall e {:trigger e in m} :: e in m ==> e.count == m[e].handles + |m[e].members| + (if e == pending then 1 else 0)
  }

  ghost predicate FirstsRight(m: Model)
    reads m.Keys`members
  {
    forall e {:trigger e in m} :: e in m ==> e.members == First(m[e].members)
  }

  ghost predicate Chained(s: seq<Descriptor>)
    reads s`link
  {
    forall i {:trigger s[i]} :: 0 <= i < |s| ==> s[i].link == After(s, i)
  }

  ghost predicate LinksRight(m: Model)
    requires Tree(m)
    reads m.Keys`link
  {
    forall e {:trigger Chained(m[e].members)} :: e in m ==> assert Family(m, e); Chained(m[e].members)
  }

  /** The descriptors in memory are those of the model; one release of `pending` is under way. */
  ghost predicate Right(m: Model, pending: Descriptor?)
    requires Tree(m)
    reads m.Keys`count, m.Keys`members, m.Keys`link
  {
    CountsRight(m, pending) && FirstsRight(m) && LinksRight(m)
  }

  lemma SharedRest(m: Model, e: Descriptor)
    requires Tree(m) && e in m && Tree(Shared(m, e))
    ensures FirstsRight(m) ==> FirstsRight(Shared(m, e))
    ensures LinksRight(m) ==> LinksRight(Shared(m, e))
  {
    var n := Shared(m, e);
    assert forall d {:trigger d in n} :: d in n ==> d in m && n[d].members == m[d].members;
  }

  lemma AloneTree(m: Model, e: Descriptor)
    requires Tree(m) && e !in m && e.parent == null
    ensures Tree(m[e := Open(1, [])])
  {
    var n := m[e := Open(1, [])];
    forall d {:trigger d in n} | d in n
      ensures Family(n, d) && Child(n, d)
    {
      if d != e {
        assert Family(m, d) && Child(m, d);
      }
    }
  }

  lemma NeededAfterShare(m: Model, e: Descriptor)
    requires e in m && AllNeeded(m, null)
    ensures AllNeeded(Shared(m, e), null)
  {
  }

  ghost predicate AllNeeded(m: Model, but: Descriptor?) {
    forall e {:trigger e in m} :: e in m && e != but ==> Needed(m, e)
  }

  method Bump(e: Descriptor, ghost m: Model)
    requires e in m && Tree(m) && Tree(Shared(m, e)) && Right(m, null)
    modifies e`count
    ensures Right(Shared(m, e), null)
  {
    SharedRest(m, e);
    e.count := e.count + 1;
  }

  // ----- Joining -----

  lemma ConsChained(e: Descriptor, was: seq<Descriptor>)
    requires Chained(was) && e.link == First(was)
    ensures Chained([e] + was)
  {
    var t := [e] + was;
    forall i {:trigger t[i]} | 0 <= i < |t|
      ensures t[i].link == After(t, i)
    {
      if i > 0 {
        assert t[i] == was[i - 1];
      }
    }
  }

  lemma JoinedLinks(m: Model, ref: Descriptor, e: Descriptor)
    requires Tree(m) && LinksRight(m) && ref in m && e !in m && Tree(Joined(m, ref, e))
             && e.link == First(m[ref].members)
    ensures LinksRight(Joined(m, ref, e))
  {
    var n := Joined(m, ref, e);
    ConsChained(e, m[ref].members);
    forall d {:trigger d in n} | d in n
      ensures Family(n, d) && Chained(n[d].members)
    {
      if d != ref && d != e {
        assert d in m && n[d].members == m[d].members;
      }
    }
  }

  method SetHead(ref: Descriptor, e: Descriptor, ghost m: Model)
    requires ref in m && e !in m && Tree(Joined(m, ref, e)) && LinksRight(Joined(m, ref, e))
    requires CountsRight(m, null) && FirstsRight(m) && e.count == 1 && e.members == null
    modifies ref`members, ref`count
    ensures CountsRight(Joined(m, ref, e), null) && FirstsRight(Joined(m, ref, e)) && LinksRight(Joined(m, ref, e))
  {
    ref.members := e;
    ref.count := ref.count + 1;
  }

  method SetLink(e: Descriptor, to: Descriptor?, ghost m: Model)
    requires Tree(m) && CountsRight(m, null) && FirstsRight(m) && LinksRight(m) && e !in m
    modifies e`link
    ensures CountsRight(m, null) && FirstsRight(m) && LinksRight(m) && e.link == to
  {
    e.link := to;
  }

  /** Puts `e` in front of the members of `ref`. */
  method LinkFirst(ref: Descriptor, e: Descriptor, ghost m: Model)
    requires Tree(m) && CountsRight(m, null) && FirstsRight(m) && LinksRight(m)
    requires ref in m && e !in m && Tree(Joined(m, ref, e)) && e.count == 1 && e.members == null
    modifies ref`members, ref`count, e`link
    ensures CountsRight(Joined(m, ref, e), null) && FirstsRight(Joined(m, ref, e)) && LinksRight(Joined(m, ref, e))
  {
    SetLink(e, ref.members, m);
    JoinedLinks(m, ref, e);
    SetHead(ref, e, m);
  }

  /** The open member at `base`. */
  method FindMember(first: Descriptor?, base: nat, ghost list: seq<Descriptor>) returns (e: Descriptor?)
    requires first == First(list) && Chained(list)
    ensures e == null ==> NoBase(list, base)
    ensures e != null ==> e in list && e.base == base
  {
    e := first;
    ghost var k := 0;
    while e != null
      invariant 0 <= k <= |list| && e == (if k == |list| then null else list[k])
      invariant forall i {:trigger list[i]} :: 0 <= i < k ==> list[i].base != base
      decreases |list| - k
    {
      if e.base == base {
        return;
      }
      e := e.link;
      k := k + 1;
    }
  }

  lemma NeededAfterJoin(m: Model, ref: Descriptor, e: Descriptor)
    requires ref in m && AllNeeded(m, null)
    ensures AllNeeded(Joined(m, ref, e), null)
  {
  }

  // ----- Leaving -----

  lemma LeftCounts(m: Model, e: Descriptor)
    requires Tree(m) && e in m && m[e].members == [] && e.parent != null && CountsRight(m, null)
    ensures e.parent in m && e in m[e.parent].members && CountsRight(Left(m, e), e.parent)
  {
    ParentDiffers(m, e);
    var n := Left(m, e);
    forall d {:trigger d in n} | d in n
      ensures d.count == n[d].handles + |n[d].members| + (if d == e.parent then 1 else 0)
    {
      assert d in m;
    }
  }

  lemma LeftNeeded(m: Model, e: Descriptor)
    requires e in m && e.parent != null && e.parent in m && e in m[e.parent].members && AllNeeded(m, e)
    ensures AllNeeded(Left(m, e), e.parent)
  {
    var n := Left(m, e);
    forall d {:trigger d in n} | d in n && d != e.parent
      ensures Needed(n, d)
    {
      assert d in m && n[d] == m[d];
    }
  }

  /** The firsts after `e` has left, if the head of its archive's list was set right. */
  lemma LeftFirsts(m: Model, e: Descriptor)
    requires e in m && e.parent != null && e.parent in m && e in m[e.parent].members
    requires forall d {:trigger d in m} :: d in m && d != e.parent ==> d.members == First(m[d].members)
    requires e.parent.members == First(Without(m[e.parent].members, IndexOf(m[e.parent].members, e)))
    ensures FirstsRight(Left(m, e))
  {
    var n := Left(m, e);
    forall d {:trigger d in n} | d in n
      ensures d.members == First(n[d].members)
    {
      assert d in m;
    }
  }

  lemma LeftLinks(m: Model, e: Descriptor)
    requires Tree(m) && e in m && m[e].members == [] && e.parent != null && e.parent in m && e in m[e.parent].members
    requires Tree(Left(m, e))
    requires forall d {:trigger d in m} :: d in m && d != e.parent ==> Chained(m[d].members)
    requires Chained(Without(m[e.parent].members, IndexOf(m[e.parent].members, e)))
    ensures LinksRight(Left(m, e))
  {
    var n := Left(m, e);
    forall d {:trigger d in n} | d in n
      ensures Family(n, d) && Chained(n[d].members)
    {
      assert d in m;
    }
  }

  lemma TailChained(s: seq<Descriptor>)
    requires Chained(s) && s != []
    ensures Chained(Without(s, 0)) && First(Without(s, 0)) == s[0].link
  {
    var t := Without(s, 0);
    forall i {:trigger t[i]} | 0 <= i < |t|
      ensures t[i].link == After(t, i)
    {
      assert t[i] == s[i + 1];
    }
  }

  lemma BypassChained(s: seq<Descriptor>, at: nat)
    requires 0 < at < |s|
    requires forall i {:trigger s[i]} :: 0 <= i < |s| ==> s[i].link == if i == at - 1 then After(s, at) else After(s, i)
    ensures Chained(Without(s, at)) && First(Without(s, at)) == s[0]
  {
    var t := Without(s, at);
    forall i {:trigger t[i]} | 0 <= i < |t|
      ensures t[i].link == After(t, i)
    {
      var j := if i < at then i else i + 1;
      assert t[i] == s[j];
      if i + 1 < |t| {
        assert t[i + 1] == s[if i + 1 < at then i + 1 else i + 2];
      }
    }
  }

  /** The member whose link leads to `e`. */
  method FindPrevious(first: Descriptor, e: Descriptor, ghost s: seq<Descriptor>, ghost at: nat)
    returns (prev: Descriptor)
    requires Chained(s) && Distinct(s) && 0 < at < |s| && s[at] == e && first == s[0]
    ensures prev == s[at - 1]
  {
    prev := first;
    ghost var k := 0;
    while prev.link != e
      invariant 0 <= k < at && prev == s[k]
      decreases at - k
    {
      prev := prev.link;
      k := k + 1;
    }
    if k + 1 != at {
      DistinctAt(s, k + 1, at);
    }
  }

  method DropHead(p: Descriptor, e: Descriptor, ghost m: Model, ghost n: Model)
    requires Tree(m) && Tree(n) && CountsRight(n, p) && FirstsRight(m) && LinksRight(m)
    requires e in m && m[e].members == [] && e.parent == p && p in m && e in m[p].members && n == Left(m, e)
    requires IndexOf(m[p].members, e) == 0
    modifies p`members
    ensures CountsRight(n, p) && FirstsRight(n) && LinksRight(n)
  {
    assert Family(m, p) && Chained(m[p].members);
    TailChained(m[p].members);
    LeftLinks(m, e);
    p.members := e.link;
    LeftFirsts(m, e);
  }

  method BypassOwn(prev: Descriptor, e: Descriptor, ghost s: seq<Descriptor>, ghost at: nat)
    requires Chained(s) && Distinct(s) && 0 < at < |s| && s[at] == e && s[at - 1] == prev
    modifies prev`link
    ensures Chained(Without(s, at)) && First(Without(s, at)) == s[0]
  {
    forall i {:trigger s[i]} | 0 <= i < |s|
      ensures s[i] == prev <==> i == at - 1
    {
      if i < at - 1 {
        DistinctAt(s, i, at - 1);
      } else if i > at - 1 {
        DistinctAt(s, at - 1, i);
      }
    }
    prev.link := e.link;
    BypassChained(s, at);
  }

  lemma NotAmongOthers(m: Model, p: Descriptor, d: Descriptor, prev: Descriptor)
    requires Tree(m) && p in m && prev in m[p].members && d in m && d != p
    ensures prev !in m[d].members
  {
    assert Family(m, p) && Family(m, d);
    var i :| 0 <= i < |m[p].members| && m[p].members[i] == prev;
  }

  method Bypass(prev: Descriptor, e: Descriptor, ghost m: Model, ghost p: Descriptor, ghost at: nat)
    requires Tree(m) && LinksRight(m) && p in m && 0 < at < |m[p].members| && m[p].members[at] == e
             && m[p].members[at - 1] == prev
    modifies prev`link
    ensures forall d {:trigger d in m} :: d in m && d != p ==> Chained(m[d].members)
    ensures Chained(Without(m[p].members, at)) && First(Without(m[p].members, at)) == m[p].members[0]
  {
    assert Family(m, p) && Chained(m[p].members);
    BypassOwn(prev, e, m[p].members, at);
    forall d {:trigger d in m} | d in m && d != p
      ensures Chained(m[d].members)
    {
      NotAmongOthers(m, p, d, prev);
      assert old(Chained(m[d].members));
    }
  }

  method DropLater(p: Descriptor, e: Descriptor, ghost m: Model, ghost n: Model, ghost at: nat)
    requires Tree(m) && Tree(n) && CountsRight(n, p) && FirstsRight(m) && LinksRight(m)
    requires e in m && m[e].members == [] && e.parent == p && p in m && e in m[p].members && n == Left(m, e)
    requires at == IndexOf(m[p].members, e) && at > 0
    modifies m.Keys`link
    ensures CountsRight(n, p) && FirstsRight(n) && LinksRight(n)
  {
    assert Family(m, p) && Chained(m[p].members);
    var prev := FindPrevious(p.members, e, m[p].members, at);
    assert m[p].members[at - 1] in m;
    LeftFirsts(m, e);
    Bypass(prev, e, m, p, at);
    LeftLinks(m, e);
  }

  /** Takes a descriptor that nobody needs out of its archive's list. */
  method Unlink(e: Descriptor, ghost m: Model) returns (ghost n: Model)
    requires Tree(m) && CountsRight(m, null) && FirstsRight(m) && LinksRight(m)
    requires e in m && m[e].members == [] && e.parent != null
    modifies e.parent`members, m.Keys`link
    ensures e.parent in m && e in m[e.parent].members && n == Left(m, e)
    ensures Tree(n) && CountsRight(n, e.parent) && FirstsRight(n) && LinksRight(n)
  {
    LeftTree(m, e);
    ParentDiffers(m, e);
    LeftCounts(m, e);
    n := Left(m, e);
    ghost var at := IndexOf(m[e.parent].members, e);
    if e.parent.members == e {
      DropHead(e.parent, e, m, n);
    } else {
      DropLater(e.parent, e, m, n, at);
    }
  }

  lemma GoneRight(m: Model, e: Descriptor)
    requires Tree(m) && Right(m, null) && e in m && Tree(m - {e})
    ensures Right(m - {e}, null)
  {
    var n := m - {e};
    forall d {:trigger d in n} | d in n
      ensures d.count == n[d].handles + |n[d].members| && d.members == First(n[d].members) && Family(n, d)
              && Chained(n[d].members)
    {
      assert d in m && n[d] == m[d];
    }
  }

  /** One handle or member of `e` is gone. */
  method Release(e: Descriptor, ghost m: Model) returns (count: nat, ghost r: Model)
    requires Tree(m) && Right(m, e) && e in m && AllNeeded(m, e)
    modifies m.Keys`count, m.Keys`members, m.Keys`link
    ensures count == m[e].handles + |m[e].members|
    ensures r == Closing(m, e) && Tree(r) && Right(r, null) && AllNeeded(r, null)
    decreases e.depth
  {
    count := Lower(e, m);
    if count > 0 {
      return count, m;
    }
    if e.parent != null {
      ParentDiffers(m, e);
      ghost var n := Unlink(e, m);
      LeftNeeded(m, e);
      var more;
      more, r := Release(e.parent, n);
    } else {
      GoneTree(m, e);
      GoneRight(m, e);
      r := m - {e};
    }
  }

  method Lower(e: Descriptor, ghost m: Model) returns (count: nat)
    requires Tree(m) && Right(m, e) && e in m
    modifies e`count
    ensures Right(m, null) && count == m[e].handles + |m[e].members|
  {
    e.count := e.count - 1;
    count := e.count;
  }

  /** One handle less. */
  function Lowered(m: Model, e: Descriptor): Model
    requires e in m && m[e].handles > 0
  {
    m[e := Open(m[e].handles - 1, m[e].members)]
  }

  lemma LoweredTree(m: Model, e: Descriptor)
    requires e in m && m[e].handles > 0 && Tree(m)
    ensures Tree(Lowered(m, e))
  {
    var n := Lowered(m, e);
    forall d {:trigger d in n} | d in n
      ensures Family(n, d) && Child(n, d)
    {
      assert Family(m, d) && Child(m, d) && n[d].members == m[d].members;
    }
  }

  lemma LoweredRest(m: Model, e: Descriptor)
    requires e in m && m[e].handles > 0 && Tree(m) && Tree(Lowered(m, e)) && Right(m, null) && AllNeeded(m, null)
    ensures Right(Lowered(m, e), e) && AllNeeded(Lowered(m, e), e)
  {
    var n := Lowered(m, e);
    assert forall d {:trigger d in n} :: d in n ==> d in m && n[d].members == m[d].members;
  }

  class Library {
    ghost var model: Model

    /** Every count is the number of handles and open members, and nothing is kept without need. */
    ghost predicate Valid()
      reads this, model.Keys`count, model.Keys`members, model.Keys`link
    {
      Tree(model) && AllNeeded(model, null) && Right(model, null)
    }

    constructor ()
      ensures Valid() && model == map[]
    {
      model := map[];
    }

    // ----- Opening -----

    /** A descriptor that is not a member. */
    ghost predicate Alone(e: Descriptor, data: seq<byte>, access: Access)
      reads e
    {
      && e.parent == null && e.data == data && e.access == access && e.Checked()
      && e.off == if e.isArchive then SARMAG else 0
    }

    /** The member `e` is the `size` bytes of the archive from `offset` on. */
    ghost predicate Cut(ref: Descriptor, e: Descriptor, offset: nat, size: nat) {
      && offset + size <= |ref.data| && e.data == ref.data[offset..offset + size] && e.Checked()
      && e.parent == ref && e.base == ref.base + offset
      && e.access == Access(ref.access.fd, true, false, ref.access.memory)
      && e.next == offset + size + size % 2
    }

    /** The member of `size` bytes at place `off` is shared if it was open, and otherwise opened and stepped over. */
    ghost predicate Opened(m: Model, now: Model, ref: Descriptor, e: Descriptor, off: nat, size: nat)
      reads ref`off
    {
      && ref in m && e.parent == ref && e.base == ref.base + off + 60
      && if e in m then now == Shared(m, e) && ref.off == off
         else
           && NoBase(m[ref].members, e.base) && now == Joined(m, ref, e)
           && Cut(ref, e, off + 60, size) && ref.off == e.next
    }

    /** Opens a file that is not in an archive. */
    method BeginFile(data: seq<byte>, access: Access) returns (e: Descriptor)
      requires Valid()
      modifies this
      ensures Valid() && fresh(e) && model == old(model)[e := Open(1, [])]
      ensures e.parent == null && e.data == data && e.access == access
      ensures e.Checked() && e.off == if e.isArchive then SARMAG else 0
    {
      e := new Descriptor(access, null, 0, data, 0);
      AloneTree(model, e);
      model := model[e := Open(1, [])];
    }

    /** One more handle of a descriptor that is open already. */
    method Share(e: Descriptor)
      requires Valid() && e in model
      modifies this, e`count
      ensures Valid() && model == Shared(old(model), e)
    {
      SharedTree(model, e);
      NeededAfterShare(model, e);
      Bump(e, model);
      model := Shared(model, e);
    }

    /** Where the next member of an archive is to be opened. */
    method Rand(e: Descriptor, offset: nat) returns (r: nat)
      requires Valid() && e in model
      modifies e`off
      ensures Valid()
      ensures r == (if e.isArchive && 0 < offset <= |e.data| then offset else 0)
      ensures e.off == if r == 0 then old(e.off) else r
    {
      if !e.isArchive || offset == 0 || offset > |e.data| {
        return 0;
      }
      e.off := offset;
      r := offset;
    }

    method Next(e: Descriptor) returns (more: bool)
      requires Valid() && e in model
      modifies model.Keys`off
      ensures Valid() && more == (e.parent != null && e.next != |e.parent.data|)
      ensures forall d {:trigger d in model} :: d in model ==> d.off == if d == e.parent then e.next else old(d.off)
    {
      if e.parent == null {
        return false;
      }
      ParentDiffers(model, e);
      Advance(e.parent, e.next);
      more := e.next != |e.parent.data|;
    }

    method Join(ref: Descriptor, e: Descriptor)
      requires Valid() && ref in model && ref.isArchive && e !in model && NoBase(model[ref].members, e.base)
      requires e.parent == ref && e.depth == ref.depth + 1 && e.count == 1 && e.members == null
      modifies this, ref`members, ref`count, e`link
      ensures Valid() && model == Joined(old(model), ref, e)
    {
      JoinedTree(model, ref, e);
      NeededAfterJoin(model, ref, e);
      LinkFirst(ref, e, model);
      model := Joined(model, ref, e);
    }

    method NewMember(ref: Descriptor, offset: nat, size: nat) returns (e: Descriptor)
      requires Valid() && ref in model && ref.isArchive && NoBase(model[ref].members, ref.base + offset)
      requires offset + size <= |ref.data|
      modifies this, ref`members, ref`count
      ensures Valid() && fresh(e) && model == Joined(old(model), ref, e)
      ensures e.base == ref.base + offset && e.parent == ref && e.next == offset + size + size % 2
      ensures e.data == ref.data[offset..offset + size] && e.Checked()
      ensures e.access == Access(ref.access.fd, true, false, ref.access.memory)
    {
      e := new Descriptor(Access(ref.access.fd, true, false, ref.access.memory), ref, ref.base + offset,
                          ref.data[offset..offset + size], offset + size + size % 2);
      Join(ref, e);
    }

    method OpenMember(ref: Descriptor, size: nat) returns (e: Descriptor)
      requires Valid() && ref in model && ref.isArchive && NoBase(model[ref].members, ref.base + ref.off + HEADER_SIZE)
      requires ref.off + HEADER_SIZE + size <= |ref.data|
      modifies this, ref`members, ref`count, ref`off
      ensures Valid() && fresh(e) && model == Joined(old(model), ref, e)
      ensures Cut(ref, e, old(ref.off) + HEADER_SIZE, size) && ref.off == e.next
    {
      var offset := ref.off + HEADER_SIZE;
      Advance(ref, offset + size + size % 2);
      e := NewMember(ref, offset, size);
    }

    method Advance(ref: Descriptor, off: nat)
      requires Valid() && ref in model
      modifies ref`off
      ensures Valid() && ref.off == off
    {
      ref.off := off;
    }

    /** The member that a call finds at the archive's position, as the bytes of its header say. */
    ghost function NextMember(ref: Descriptor): Member
      reads ref`off
    {
      MemberAt(ref.data, ref.off, ref.stringTable)
    }

    /** The open member of an archive at a place, if there is one. */
    method FindOpen(ref: Descriptor, base: nat) returns (e: Descriptor?)
      requires Valid() && ref in model
      ensures e == null ==> NoBase(model[ref].members, base)
      ensures e != null ==> e in model && e.parent == ref && e.base == base
    {
      assert Family(model, ref) && Chained(model[ref].members);
      e := FindMember(ref.members, base, model[ref].members);
    }

    /** The member of `size` bytes at the archive's position; what is open already is shared. */
    method BeginMember(ref: Descriptor, size: nat) returns (e: Descriptor)
      requires Valid() && ref in model && ref.isArchive && ref.off + HEADER_SIZE + size <= |ref.data|
      modifies this, ref`off, model.Keys`count, model.Keys`members
      ensures Valid() && (e in old(model) || fresh(e))
      ensures Opened(old(model), model, ref, e, old(ref.off), size)
    {
      var xelf := FindOpen(ref, ref.base + ref.off + HEADER_SIZE);
      if xelf != null {
        Share(xelf);
        return xelf;
      }
      e := OpenMember(ref, size);
    }

    /** Opens the next member of an archive. */
    method BeginNext(ref: Descriptor) returns (e: Descriptor?)
      requires Valid() && ref in model && ref.isArchive
      modifies this, ref`off, model.Keys`count, model.Keys`members
      ensures Valid() && (e == null <==> !old(NextMember(ref)).Member?)
      ensures e == null ==> model == old(model) && ref.off == old(ref.off)
      ensures e != null ==> e in old(model) || fresh(e)
      ensures e != null ==> Opened(old(model), model, ref, e, old(ref.off), old(NextMember(ref)).size)
    {
      var header := ReadHeader(ref.data, ref.off, ref.stringTable);
      if !header.Member? {
        return null;
      }
      e := BeginMember(ref, header.size);
    }

    /** A descriptor of what is open: the archive's next member, or the same one with one more handle. */
    method BeginRef(ref: Descriptor) returns (e: Descriptor?)
      requires Valid() && ref in model
      modifies this, ref`off, model.Keys`count, model.Keys`members
      ensures Valid() && (e == null <==> ref.isArchive && !old(NextMember(ref)).Member?)
      ensures e == null || !ref.isArchive ==> ref.off == old(ref.off)
      ensures e == null ==> model == old(model)
      ensures !ref.isArchive ==> e == ref && model == Shared(old(model), ref)
      ensures e != null && ref.isArchive ==>
                && (e in old(model) || fresh(e))
                && Opened(old(model), model, ref, e, old(ref.off), old(NextMember(ref)).size)
    {
      if ref.isArchive {
        e := BeginNext(ref);
      } else {
        Share(ref);
        e := ref;
      }
    }

    /** Opens a file, whose bytes are `file` if it can be read, or what `ref` says. */
    method Begin(fd: int, command: Command, ref: Descriptor?, file: Option<seq<byte>>)
      returns (e: Descriptor?, error: BeginError)
      requires Valid() && (ref != null ==> ref in model)
      modifies this, model.Keys`off, model.Keys`count, model.Keys`members
      ensures Valid() && (e == null <==> error != NoError)
      ensures error == if command.NullCommand? then NoCommand
                       else if command.WriteCommand? then NoError
                       else if command.OtherCommand? then InvalidCommand
                       else if ref == null then if file.None? then NoFile else NoError
                       else if !ref.access.readable || (command.ReadWriteCommand? && !ref.access.writable) then
                         CommandMismatch
                       else if !ref.isArchive then NoError
                       else if command.ReadWriteCommand? then MemberWrite
                       else if !ref.access.memory && fd != ref.access.fd then FdMismatch
                       else if !old(NextMember(ref)).Member? then NoMember
                       else NoError
      ensures e == null ==> model == old(model)
      ensures e == null || command.WriteCommand? || ref == null || !ref.isArchive ==>
                forall d :: d in old(model) ==> d.off == old(d.off)
      ensures forall d :: d in old(model) && d != ref ==> d.off == old(d.off)
      ensures e != null && command.WriteCommand? ==>
                fresh(e) && model == old(model)[e := Open(1, [])] && Alone(e, [], Access(fd, false, true, false))
      ensures e != null && !command.WriteCommand? && ref == null ==>
                && fresh(e) && model == old(model)[e := Open(1, [])]
                && Alone(e, file.value, Access(fd, true, command.ReadWriteCommand?, false))
      ensures e != null && !command.WriteCommand? && ref != null && !ref.isArchive ==>
                e == ref && model == Shared(old(model), ref)
      ensures e != null && !command.WriteCommand? && ref != null && ref.isArchive ==>
                && (e in old(model) || fresh(e))
                && Opened(old(model), model, ref, e, old(ref.off), old(NextMember(ref)).size)
    {
      e, error := null, NoError;
      if command.NullCommand? {
        return null, NoCommand;
      }
      if command.WriteCommand? {
        e := BeginFile([], Access(fd, false, true, false));
        return;
      }
      if command.OtherCommand? {
        return null, InvalidCommand;
      }
      if ref == null {
        if file.None? {
          return null, NoFile;
        }
        e := BeginFile(file.value, Access(fd, true, command.ReadWriteCommand?, false));
        return;
      }
      if !ref.access.readable || (command.ReadWriteCommand? && !ref.access.writable) {
        return null, CommandMismatch;
      }
      if ref.isArchive {
        if command.ReadWriteCommand? {
          return null, MemberWrite;
        }
        if !ref.access.memory && fd != ref.access.fd {
          return null, FdMismatch;
        }
      }
      e := BeginRef(ref);
      error := if e == null then NoMember else NoError;
    }

    /** An image in memory is opened unless it is empty. */
    method Memory(image: seq<byte>) returns (e: Descriptor?)
      requires Valid()
      modifies this
      ensures Valid() && (e == null <==> image == []) && (e == null ==> model == old(model))
      ensures e != null ==>
                fresh(e) && model == old(model)[e := Open(1, [])] && Alone(e, image, Access(-1, true, false, true))
    {
      if image == [] {
        return null;
      }
      e := BeginFile(image, Access(-1, true, false, true));
    }

    // ----- Closing -----

    /** Gives a handle back. What is released is exactly what has neither handles nor open members left. */
    method End(e: Descriptor) returns (count: nat)
      requires Valid() && e in model && model[e].handles > 0
      modifies this, model.Keys`count, model.Keys`members, model.Keys`link
      ensures Valid() && count == old(model)[e].handles - 1 + |old(model)[e].members|
      ensures Tree(Lowered(old(model), e)) && model == Closing(Lowered(old(model), e), e)
      ensures ReleasedExactly(Lowered(old(model), e), model)
    {
      ghost var m, r := Lowered(model, e), model;
      LoweredTree(model, e);
      LoweredRest(model, e);
      count, r := Release(e, m);
      ClosingReleasesExactly(m, e);
      model := r;
    }
  }
}
