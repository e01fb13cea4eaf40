/** The flow table of examples/switch/datapath.hh as a sequence, with the updates of
    handle_flow_mod and the lookup of packet_handler.

    The comparator of the table is `<=` on priorities, so every insertion succeeds and a
    new flow lands before the first entry whose priority is at least its own. */
module FlowTable {
  import opened Wrappers
  import opened Match10
  import opened MatchReadings

  /** An OUTPUT action, or one of the actions that the datapath ignores. */
  datatype Action = Output(port: uint16, maxLen: uint16) | Ignored

  datatype Flow = Flow(priority: uint16, pattern: Pattern, actions: seq<Action>)

  type Table = seq<Flow>

  predicate StrictMatch(r: Reading, a: Flow, b: Flow) {
    a.priority == b.priority && Strict(r, a.pattern, b.pattern)
  }

  /** Position of the first entry that strictly matches f, or the length of the table. */
  function FirstStrict(r: Reading, t: Table, f: Flow): (i: nat)
    ensures i <= |t|
    ensures i < |t| ==> StrictMatch(r, t[i], f)
    ensures forall j :: 0 <= j < i ==> !StrictMatch(r, t[j], f)
  {
    if t == [] || StrictMatch(r, t[0], f) then 0 else 1 + FirstStrict(r, t[1..], f)
  }

  /** Where the ordered set puts a flow of priority p. */
  function InsertPoint(t: Table, p: uint16): (i: nat)
    ensures i <= |t|
    ensures i < |t| ==> t[i].priority >= p
    ensures forall j :: 0 <= j < i ==> t[j].priority < p
  {
    if t == [] || t[0].priority >= p then 0 else 1 + InsertPoint(t[1..], p)
  }

  function Insert(t: Table, f: Flow): Table { InsertAt(t, InsertPoint(t, f.priority), f) }

  function Add(r: Reading, t: Table, f: Flow): Table { Insert(Erase(t, FirstStrict(r, t, f)), f) }

  function Delete(r: Reading, t: Table, given: Pattern): Table {
    if t == [] then []
    else (if Covers(r, given, t[0].pattern) then [] else [t[0]]) + Delete(r, t[1..], given)
  }

  /** Position of the first entry that accepts the packet, or the length of the table. */
  function FirstAccepting(t: Table, packet: Match): (i: nat)
    ensures i <= |t|
    ensures i < |t| ==> Accepts(t[i].pattern, packet)
    ensures forall j :: 0 <= j < i ==> !Accepts(t[j].pattern, packet)
  {
    if t == [] || Accepts(t[0].pattern, packet) then 0 else 1 + FirstAccepting(t[1..], packet)
  }

  function Lookup(t: Table, packet: Match): Option<Flow> {
    var i := FirstAccepting(t, packet);
    if i < |t| then Some(t[i]) else None
  }

  // ---------- runs of flow modifications ----------

  datatype Mod = AddFlow(flow: Flow) | DeleteFlows(given: Pattern)

  function Apply(r: Reading, t: Table, m: Mod): Table {
    match m
    case AddFlow(f) => Add(r, t, f)
    case DeleteFlows(given) => Delete(r, t, given)
  }

  function Run(r: Reading, h: seq<Mod>): Table {
    if h == [] then [] else Apply(r, Run(r, h[..|h| - 1]), h[|h| - 1])
  }

  /** A flow with the position in the run of the ADD that put it in force. */
  datatype Stamped = Stamped(flow: Flow, when: nat)

  predicate Before(a: Stamped, b: Stamped) {
    a.flow.priority < b.flow.priority || (a.flow.priority == b.flow.priority && a.when > b.when)
  }

  ghost predicate Sorted(es: seq<Stamped>) {
    forall i, j :: 0 <= i < j < |es| ==> Before(es[i], es[j])
  }

  ghost predicate Carries(es: seq<Stamped>, t: Table) {
    |es| == |t| && forall i :: 0 <= i < |t| ==> es[i].flow == t[i]
  }

  /** The ADDs in force after h.  An ADD puts its flow in force and displaces one strictly
      matching flow; a DELETE takes all flows out of force that it covers. */
  ghost predicate InForce(r: Reading, h: seq<Mod>, e: Stamped)
    decreases |h|, 0
  {
    h != [] &&
    var before, m := h[..|h| - 1], h[|h| - 1];
    match m
    case AddFlow(f) => e == Stamped(f, |before|) || (InForce(r, before, e) && !Displaces(r, before, f, e))
    case DeleteFlows(given) => InForce(r, before, e) && !Covers(r, given, e.flow.pattern)
  }

  /** After h, an ADD of f displaces the newest flow in force that strictly matches f. */
  ghost predicate Displaces(r: Reading, h: seq<Mod>, f: Flow, e: Stamped)
    decreases |h|, 1
  {
    StrictMatch(r, e.flow, f) && forall o :: InForce(r, h, o) && StrictMatch(r, o.flow, f) ==> o.when <= e.when
  }

  /** The table t lists exactly the ADDs in force after h, lowest priority value first and
      newest first among equals. */
  ghost predicate ListsSurvivors(r: Reading, h: seq<Mod>, t: Table, es: seq<Stamped>) {
    && Carries(es, t)
    && Sorted(es)
    && (forall e :: e in es <==> InForce(r, h, e))
  }

  // ---------- the table lists the survivors ----------

  /** What is in force after one more modification. */
  lemma {:induction false} InForceStep(r: Reading, h: seq<Mod>, m: Mod, e: Stamped)
    ensures InForce(r, h + [m], e) <==>
            match m
            case AddFlow(f) => e == Stamped(f, |h|) || (InForce(r, h, e) && !Displaces(r, h, f, e))
            case DeleteFlows(given) => InForce(r, h, e) && !Covers(r, given, e.flow.pattern)
  {
    hide StrictMatch, Covers, Displaces;
    assert (h + [m])[..|h|] == h;
  }

  lemma NothingInForce(r: Reading, e: Stamped)
    ensures !InForce(r, [], e)
  {}

  /** A flow of priority 1 whose ingress port field holds the given value. */
  function OnPort(port: uint16, w: set<Flag>): Flow { Flow(1, PortPattern(port, w), []) }

  /** Without the zero convention the code as written keeps two entries that strictly match:
      an ADD that strictly matches both erases only the first. */
  lemma AsWrittenKeepsDuplicate()
    ensures var a, b, c := OnPort(5, EVERY - {IN_PORT}), OnPort(7, EVERY), OnPort(5, EVERY);
            Run(AsWritten, [AddFlow(a), AddFlow(b), AddFlow(c)]) == [c, a] && StrictMatch(AsWritten, c, a)
  {
    AsWrittenStrictNotTransitive();
    OnlyFirstErased(AsWritten, OnPort(5, EVERY - {IN_PORT}), OnPort(7, EVERY), OnPort(5, EVERY));
  }

  lemma OnlyFirstErased(r: Reading, a: Flow, b: Flow, c: Flow)
    requires a.priority == b.priority == c.priority
    requires !StrictMatch(r, a, b) && StrictMatch(r, b, c)
    ensures Run(r, [AddFlow(a), AddFlow(b), AddFlow(c)]) == [c, a]
  {
    hide StrictMatch, Add;
    RunThree(r, AddFlow(a), AddFlow(b), AddFlow(c));
    AddInFront(r, [], a);
    AddInFront(r, [a], b);
    AddInFront(r, [b, a], c);
    assert [a] + Erase([], 0) == [a] && [b] + Erase([a], 1) == [b, a] && [c] + Erase([b, a], 0) == [c, a];
  }

  lemma AddInFront(r: Reading, t: Table, f: Flow)
    requires forall i :: 0 <= i < |t| ==> t[i].priority >= f.priority
    ensures Add(r, t, f) == [f] + Erase(t, FirstStrict(r, t, f))
  {
    hide StrictMatch;
    var rest := Erase(t, FirstStrict(r, t, f));
    assert InsertPoint(rest, f.priority) == 0;
  }

  lemma RunThree(r: Reading, x: Mod, y: Mod, z: Mod)
    ensures Run(r, [x, y, z]) == Apply(r, Apply(r, Apply(r, [], x), y), z)
  {
    hide Apply;
    assert [x, y, z][..2] == [x, y] && [x, y][..1] == [x] && [x][..0] == [];
    assert Run(r, [x]) == Apply(r, [], x);
    assert Run(r, [x, y]) == Apply(r, Run(r, [x]), y);
  }

  /** What is in force was added. */
  lemma {:induction false} InForceWasAdded(r: Reading, h: seq<Mod>, e: Stamped)
    requires InForce(r, h, e)
    ensures e.when < |h| && h[e.when] == AddFlow(e.flow)
  {
    hide StrictMatch, Covers, Displaces;
    if e != Stamped(e.flow, |h| - 1) { InForceWasAdded(r, h[..|h| - 1], e); }
    else if h[|h| - 1] != AddFlow(e.flow) { InForceWasAdded(r, h[..|h| - 1], e); }
  }

  /** The entry that ADD erases is the one that it displaces. */
  lemma FirstStrictIsDisplaced(r: Reading, h: seq<Mod>, t: Table, es: seq<Stamped>, f: Flow, e: Stamped)
    requires ListsSurvivors(r, h, t, es) && e in es
    ensures var i := FirstStrict(r, t, f); Displaces(r, h, f, e) <==> i < |t| && e == es[i]
  {
    hide StrictMatch, InForce, FirstStrict;
    var i := FirstStrict(r, t, f);
    if i < |t| {
      assert es[i] in es;
      forall o | InForce(r, h, o) && StrictMatch(r, o.flow, f) ensures o == es[i] || o.when < es[i].when {
        StrictAfterFirst(r, t, es, f, o);
      }
    }
    if StrictMatch(r, e.flow, f) { StrictAfterFirst(r, t, es, f, e); }
  }

  /** Any strict match is the first in the table, or an older one. */
  lemma StrictAfterFirst(r: Reading, t: Table, es: seq<Stamped>, f: Flow, o: Stamped)
    requires Carries(es, t) && Sorted(es) && o in es && StrictMatch(r, o.flow, f)
    ensures var i := FirstStrict(r, t, f); i < |t| && (o == es[i] || o.when < es[i].when)
  {
    hide Strict;
    var n :| 0 <= n < |es| && es[n] == o;
    var i := FirstStrict(r, t, f);
    assert t[n] == o.flow;
    assert i < n ==> Before(es[i], es[n]);
  }

  lemma InsertSorted(es: seq<Stamped>, t: Table, f: Flow, now: nat)
    requires Carries(es, t) && Sorted(es)
    requires forall e :: e in es ==> e.when < now
    ensures Carries(InsertAt(es, InsertPoint(t, f.priority), Stamped(f, now)), Insert(t, f))
    ensures Sorted(InsertAt(es, InsertPoint(t, f.priority), Stamped(f, now)))
  {
    hide Before, Sorted;
    var k := InsertPoint(t, f.priority);
    forall i | 0 <= i < k ensures Before(es[i], Stamped(f, now)) { AroundInsertion(es, t, f, now, i); }
    forall i | k <= i < |es| ensures Before(Stamped(f, now), es[i]) { AroundInsertion(es, t, f, now, i); }
    SortedAround(es, k, Stamped(f, now));
  }

  /** What is in front of the insertion point is before the new entry, and the rest behind it. */
  lemma AroundInsertion(es: seq<Stamped>, t: Table, f: Flow, now: nat, i: nat)
    requires Carries(es, t) && Sorted(es) && i < |es| && forall e :: e in es ==> e.when < now
    ensures if i < InsertPoint(t, f.priority) then Before(es[i], Stamped(f, now)) else Before(Stamped(f, now), es[i])
  {
    var k := InsertPoint(t, f.priority);
    assert es[i] in es;
    if i > k { assert Before(es[k], es[i]); }
  }

  lemma SortedAround(es: seq<Stamped>, k: nat, x: Stamped)
    requires Sorted(es) && k <= |es|
    requires (forall i :: 0 <= i < k ==> Before(es[i], x)) && (forall i :: k <= i < |es| ==> Before(x, es[i]))
    ensures Sorted(InsertAt(es, k, x))
  {
    hide Before;
  }

  lemma EraseSorted(es: seq<Stamped>, t: Table, i: nat)
    requires Carries(es, t) && Sorted(es)
    ensures Carries(Erase(es, i), Erase(t, i)) && Sorted(Erase(es, i))
    ensures forall e :: e in Erase(es, i) ==> e in es
  {}

  /** The stamped form of Add. */
  ghost function Added(r: Reading, t: Table, es: seq<Stamped>, f: Flow, now: nat): seq<Stamped>
    requires Carries(es, t)
  {
    var i := FirstStrict(r, t, f);
    InsertAt(Erase(es, i), InsertPoint(Erase(t, i), f.priority), Stamped(f, now))
  }

  lemma AddKeepsOrder(r: Reading, t: Table, es: seq<Stamped>, f: Flow, now: nat)
    requires Carries(es, t) && Sorted(es)
    requires forall e :: e in es ==> e.when < now
    ensures Carries(Added(r, t, es, f, now), Add(r, t, f)) && Sorted(Added(r, t, es, f, now))
  {
    hide StrictMatch, Sorted, Carries, InsertPoint;
    var i := FirstStrict(r, t, f);
    EraseSorted(es, t, i);
    InsertSorted(Erase(es, i), Erase(t, i), f, now);
  }

  lemma AddLists(r: Reading, h: seq<Mod>, t: Table, es: seq<Stamped>, f: Flow)
    requires ListsSurvivors(r, h, t, es)
    ensures ListsSurvivors(r, h + [AddFlow(f)], Add(r, t, f), Added(r, t, es, f, |h|))
  {
    hide StrictMatch, InForce, Displaces, Before, FirstStrict, InsertPoint;
    var i := FirstStrict(r, t, f);
    forall e | e in es ensures e.when < |h| { InForceWasAdded(r, h, e); }
    AddKeepsOrder(r, t, es, f, |h|);
    forall e ensures e in Added(r, t, es, f, |h|) <==> InForce(r, h + [AddFlow(f)], e) {
      InForceStep(r, h, AddFlow(f), e);
      InsertMembers(Erase(es, i), InsertPoint(Erase(t, i), f.priority), Stamped(f, |h|), e);
      EraseMembers(es, i, e);
      if e in es { FirstStrictIsDisplaced(r, h, t, es, f, e); }
    }
  }

  lemma EraseMembers(es: seq<Stamped>, i: nat, e: Stamped)
    requires Sorted(es)
    ensures e in Erase(es, i) <==> e in es && (i < |es| ==> e != es[i])
  {
    hide Before, Sorted;
    if e in es && (i < |es| ==> e != es[i]) { KeptByErase(es, i, e); }
    if e in Erase(es, i) { NotErased(es, i, e); }
  }

  lemma KeptByErase(es: seq<Stamped>, i: nat, e: Stamped)
    requires e in es && (i < |es| ==> e != es[i])
    ensures e in Erase(es, i)
  {
    var n :| 0 <= n < |es| && es[n] == e;
    assert i < |es| ==> Erase(es, i)[if n < i then n else n - 1] == e;
  }

  lemma NotErased(es: seq<Stamped>, i: nat, e: Stamped)
    requires Sorted(es) && e in Erase(es, i)
    ensures e in es && (i < |es| ==> e != es[i])
  {
    if i < |es| {
      var n :| 0 <= n < |es| - 1 && Erase(es, i)[n] == e;
      if n < i { assert Before(es[n], es[i]); } else { assert Before(es[i], es[n + 1]); }
    }
  }

  lemma InsertMembers(es: seq<Stamped>, k: nat, x: Stamped, e: Stamped)
    requires k <= |es|
    ensures e in InsertAt(es, k, x) <==> e == x || e in es
  {
    assert es == es[..k] + es[k..];
  }

  /** Delete as a filter on stamped entries. */
  ghost function Kept(r: Reading, es: seq<Stamped>, given: Pattern): seq<Stamped> {
    if es == [] then []
    else (if Covers(r, given, es[0].flow.pattern) then [] else [es[0]]) + Kept(r, es[1..], given)
  }

  lemma {:induction false} KeptMembers(r: Reading, es: seq<Stamped>, given: Pattern, e: Stamped)
    ensures e in Kept(r, es, given) <==> e in es && !Covers(r, given, e.flow.pattern)
  {
    hide Covers;
    if es != [] {
      assert es == [es[0]] + es[1..];
      KeptMembers(r, es[1..], given, e);
    }
  }

  lemma SortedCons(x: Stamped, es: seq<Stamped>)
    requires Sorted(es)
    requires forall e :: e in es ==> Before(x, e)
    ensures Sorted([x] + es)
  {
    hide Before;
  }

  /** Deleting keeps the order of the entries that stay. */
  lemma {:induction false} DeleteKeepsOrder(r: Reading, es: seq<Stamped>, t: Table, given: Pattern)
    requires Carries(es, t) && Sorted(es)
    ensures Carries(Kept(r, es, given), Delete(r, t, given)) && Sorted(Kept(r, es, given))
  {
    hide Covers, Before;
    if es != [] {
      var rest := Kept(r, es[1..], given);
      assert Sorted(es[1..]);
      DeleteKeepsOrder(r, es[1..], t[1..], given);
      forall e | e in rest ensures Before(es[0], e) {
        KeptMembers(r, es[1..], given, e);
        FirstBefore(es, e);
      }
      SortedCons(es[0], rest);
    }
  }

  lemma FirstBefore(es: seq<Stamped>, e: Stamped)
    requires Sorted(es) && es != [] && e in es[1..]
    ensures Before(es[0], e)
  {
    hide Before;
    var n :| 0 <= n < |es[1..]| && es[1..][n] == e;
    assert es[n + 1] == e;
  }

  lemma DeleteLists(r: Reading, h: seq<Mod>, t: Table, es: seq<Stamped>, given: Pattern)
    requires ListsSurvivors(r, h, t, es)
    ensures ListsSurvivors(r, h + [DeleteFlows(given)], Delete(r, t, given), Kept(r, es, given))
  {
    hide Covers, StrictMatch, InForce, Displaces;
    DeleteKeepsOrder(r, es, t, given);
    forall e ensures e in Kept(r, es, given) <==> InForce(r, h + [DeleteFlows(given)], e) {
      KeptMembers(r, es, given, e);
      InForceStep(r, h, DeleteFlows(given), e);
    }
  }

  /** After every run of ADD and DELETE, under either reading, the table is the sorted list of
      the flows in force. */
  lemma {:induction false} TableListsSurvivors(r: Reading, h: seq<Mod>) returns (es: seq<Stamped>)
    ensures ListsSurvivors(r, h, Run(r, h), es)
  {
    hide StrictMatch, InForce, Added, Kept, Add, Delete;
    if h == [] {
      es := [];
      forall e ensures !InForce(r, h, e) { NothingInForce(r, e); }
    } else {
      var h0, m := h[..|h| - 1], h[|h| - 1];
      var es0 := TableListsSurvivors(r, h0);
      assert h == h0 + [m];
      match m
      case AddFlow(f) =>
        AddLists(r, h0, Run(r, h0), es0, f);
        es := Added(r, Run(r, h0), es0, f, |h0|);
      case DeleteFlows(given) =>
        DeleteLists(r, h0, Run(r, h0), es0, given);
        es := Kept(r, es0, given);
    }
  }

  /** The description leaves no freedom: a history has one such table. */
  lemma {:induction false} SortedUnique(es: seq<Stamped>, es': seq<Stamped>)
    requires Sorted(es) && Sorted(es')
    requires forall e :: e in es <==> e in es'
    ensures es == es'
  {
    if es == [] {
      if es' != [] { FirstOfSorted(es', es, es'[0]); }
    } else {
      FirstOfSorted(es, es', es[0]);
      FirstOfSorted(es', es, es'[0]);
      forall e ensures e in es[1..] <==> e in es'[1..] {
        EraseMembers(es, 0, e);
        EraseMembers(es', 0, e);
      }
      SortedUnique(es[1..], es'[1..]);
    }
  }

  /** The first entry of a sorted list is in any list with the same entries and is not after its first. */
  lemma FirstOfSorted(es: seq<Stamped>, es': seq<Stamped>, e: Stamped)
    requires Sorted(es') && es != [] && e == es[0]
    requires forall x :: x in es <==> x in es'
    ensures es' != [] && (es'[0] == e || Before(es'[0], e))
  {
    assert e in es';
  }

  // ---------- when no two entries strictly match ----------

  lemma StrictMatchSymmetric(r: Reading, a: Flow, b: Flow)
    ensures StrictMatch(r, a, b) <==> StrictMatch(r, b, a)
  {
    hide Strict;
    StrictSymmetric(r, a.pattern, b.pattern);
  }

  ghost predicate NoPair(r: Reading, t: Table) {
    forall i, j :: 0 <= i < j < |t| ==> !StrictMatch(r, t[i], t[j])
  }

  /** Behind the first strict match there is no other: it is enough to erase one. */
  ghost predicate OneMatchAtMost(r: Reading, t: Table, f: Flow) {
    forall n :: 0 <= n < |t| && n != FirstStrict(r, t, f) ==> !StrictMatch(r, t[n], f)
  }

  ghost predicate NoMatch(r: Reading, t: Table, f: Flow) {
    forall n :: 0 <= n < |t| ==> !StrictMatch(r, t[n], f)
  }

  lemma InsertNoPair(r: Reading, t: Table, f: Flow)
    requires NoPair(r, t)
    ensures NoPair(r, Insert(t, f)) <==> NoMatch(r, t, f)
  {
    hide StrictMatch, InsertPoint;
    var k, t' := InsertPoint(t, f.priority), Insert(t, f);
    forall n | 0 <= n < |t| ensures StrictMatch(r, f, t[n]) <==> StrictMatch(r, t[n], f) {
      StrictMatchSymmetric(r, f, t[n]);
    }
    if NoPair(r, t') {
      forall n | 0 <= n < |t| ensures !StrictMatch(r, t[n], f) {
        assert t'[if n < k then n else n + 1] == t[n] && t'[k] == f;
      }
    }
  }

  lemma EraseNoPair(r: Reading, t: Table, i: nat)
    requires NoPair(r, t)
    ensures NoPair(r, Erase(t, i))
  {
    hide StrictMatch;
    var rest := Erase(t, i);
    forall m, n | 0 <= m < n < |rest| ensures !StrictMatch(r, rest[m], rest[n]) {
      assert rest[m] == t[if m < i then m else m + 1] && rest[n] == t[if n < i then n else n + 1];
    }
  }

  lemma EraseNoMatch(r: Reading, t: Table, f: Flow)
    ensures NoMatch(r, Erase(t, FirstStrict(r, t, f)), f) <==> OneMatchAtMost(r, t, f)
  {
    hide StrictMatch, FirstStrict;
    var i := FirstStrict(r, t, f);
    var rest := Erase(t, i);
    if NoMatch(r, rest, f) {
      forall n | 0 <= n < |t| && n != i ensures !StrictMatch(r, t[n], f) {
        assert rest[if n < i then n else n - 1] == t[n];
      }
    }
    if OneMatchAtMost(r, t, f) {
      forall n | 0 <= n < |rest| ensures !StrictMatch(r, rest[n], f) {
        assert rest[n] == t[if n < i then n else n + 1];
      }
    }
  }

  /** An ADD keeps a table free of strictly matching pairs exactly when its loop may stop at
      the first strict match. */
  lemma AddNoPair(r: Reading, t: Table, f: Flow)
    requires NoPair(r, t)
    ensures NoPair(r, Add(r, t, f)) <==> OneMatchAtMost(r, t, f)
  {
    hide StrictMatch, FirstStrict, Insert, Erase, NoPair, NoMatch, OneMatchAtMost;
    EraseNoPair(r, t, FirstStrict(r, t, f));
    EraseNoMatch(r, t, f);
    InsertNoPair(r, Erase(t, FirstStrict(r, t, f)), f);
  }

  lemma {:induction false} DeleteMembers(r: Reading, t: Table, given: Pattern, f: Flow)
    ensures f in Delete(r, t, given) <==> f in t && !Covers(r, given, f.pattern)
  {
    hide Covers;
    if t != [] {
      assert t == [t[0]] + t[1..];
      DeleteMembers(r, t[1..], given, f);
    }
  }

  lemma {:induction false} DeleteNoPair(r: Reading, t: Table, given: Pattern)
    requires NoPair(r, t)
    ensures NoPair(r, Delete(r, t, given))
  {
    hide Covers, StrictMatch;
    if t != [] {
      var rest := Delete(r, t[1..], given);
      DeleteNoPair(r, t[1..], given);
      forall n | 0 <= n < |rest| ensures !StrictMatch(r, t[0], rest[n]) {
        DeleteMembers(r, t[1..], given, rest[n]);
        var m :| 0 <= m < |t[1..]| && t[1..][m] == rest[n];
        assert t[m + 1] == rest[n];
      }
    }
  }

  ghost predicate NeverPaired(r: Reading, h: seq<Mod>) {
    forall k :: 0 <= k <= |h| ==> NoPair(r, Run(r, h[..k]))
  }

  /** No ADD of the run meets a second flow that it strictly matches. */
  ghost predicate BreakIsEnough(r: Reading, h: seq<Mod>) {
    forall k :: 0 <= k < |h| && h[k].AddFlow? ==> OneMatchAtMost(r, Run(r, h[..k]), h[k].flow)
  }

  lemma PrefixOfInit<T>(h: seq<T>)
    requires h != []
    ensures forall k :: 0 <= k < |h| ==> h[..|h| - 1][..k] == h[..k]
    ensures h[..|h|] == h
  {}

  lemma NeverPairedStep(r: Reading, h: seq<Mod>)
    requires h != []
    ensures var before := h[..|h| - 1];
            && (NeverPaired(r, h) <==> NeverPaired(r, before) && NoPair(r, Run(r, h)))
            && (BreakIsEnough(r, h) <==>
                BreakIsEnough(r, before) &&
                (h[|h| - 1].AddFlow? ==> OneMatchAtMost(r, Run(r, before), h[|h| - 1].flow)))
  {
    hide Run, NoPair, OneMatchAtMost;
    var before := h[..|h| - 1];
    PrefixOfInit(h);
    if NeverPaired(r, h) {
      forall k | 0 <= k <= |before| ensures NoPair(r, Run(r, before[..k])) { assert before[..k] == h[..k]; }
      assert NoPair(r, Run(r, h[..|h|]));
    }
    if NeverPaired(r, before) && NoPair(r, Run(r, h)) {
      forall k | 0 <= k <= |h| ensures NoPair(r, Run(r, h[..k])) {
        if k < |h| { assert before[..k] == h[..k]; }
      }
    }
  }

  /** Under either reading, the table is at all times free of strictly matching pairs exactly
      when every ADD may stop at its first strict match. */
  lemma {:induction false} NeverPairedIff(r: Reading, h: seq<Mod>)
    ensures NeverPaired(r, h) <==> BreakIsEnough(r, h)
    ensures NeverPaired(r, h) ==> NoPair(r, Run(r, h))
  {
    hide NoPair, OneMatchAtMost, NeverPaired, BreakIsEnough, Add, Delete;
    if h == [] {
      NothingPaired(r);
    } else {
      var before, m := h[..|h| - 1], h[|h| - 1];
      NeverPairedStep(r, h);
      NeverPairedIff(r, before);
      if NeverPaired(r, before) {
        match m
        case AddFlow(f) => AddNoPair(r, Run(r, before), f);
        case DeleteFlows(given) => DeleteNoPair(r, Run(r, before), given);
      }
    }
  }

  lemma NothingPaired(r: Reading)
    ensures NeverPaired(r, []) && BreakIsEnough(r, []) && NoPair(r, Run(r, []))
  {
    var none: seq<Mod> := [];
    assert forall k :: 0 <= k <= |none| ==> none[..k] == none;
  }

  // ---------- when the table refines a map ----------

  /** A priority with the part of a match that a strict match compares.  Under `Documented`
      that is the class of the packets accepted (`StrictIffSamePackets`); under `AsWritten` it is
      the stored values, wildcarded or not. */
  datatype Key = Key(priority: uint16, packets: PacketClass)

  function KeyOf(keys: Reading, f: Flow): Key { Key(f.priority, ClassOf(keys, f.pattern)) }

  /** Keys can be read as documented, whatever the code does, or as the code compares them. */
  predicate Comparable(r: Reading, keys: Reading) { keys == Documented || keys == r }

  lemma SameKeyIsStrict(r: Reading, keys: Reading, a: Flow, b: Flow)
    requires Comparable(r, keys) && KeyOf(keys, a) == KeyOf(keys, b)
    ensures StrictMatch(r, a, b)
  {
    hide Strict, ClassOf, HaveStray, SameWildcards;
    SameClassIff(keys, a.pattern, b.pattern);
    StrictReadings(a.pattern, b.pattern);
  }

  /** Documented keys are equal exactly when the flows have one priority and accept the same
      packets. */
  lemma DocumentedKeyIsPackets(a: Flow, b: Flow)
    ensures KeyOf(Documented, a) == KeyOf(Documented, b) <==>
            a.priority == b.priority && forall p :: Accepts(a.pattern, p) <==> Accepts(b.pattern, p)
  {
    hide Strict, ClassOf, Accepts;
    StrictIffSameClass(Documented, a.pattern, b.pattern);
    StrictIffSamePackets(a.pattern, b.pattern);
  }

  /** The abstract table: one entry for each key. */
  function MapRun(r: Reading, keys: Reading, h: seq<Mod>): map<Key, Flow> {
    if h == [] then map[] else MapApply(r, keys, MapRun(r, keys, h[..|h| - 1]), h[|h| - 1])
  }

  function MapApply(r: Reading, keys: Reading, m: map<Key, Flow>, mod: Mod): map<Key, Flow> {
    match mod
    case AddFlow(f) => m[KeyOf(keys, f) := f]
    case DeleteFlows(given) => map k | k in m && !Covers(r, given, m[k].pattern) :: m[k]
  }

  ghost predicate DistinctKeys(keys: Reading, t: Table) {
    forall i, j :: 0 <= i < j < |t| ==> KeyOf(keys, t[i]) != KeyOf(keys, t[j])
  }

  predicate Holds(keys: Reading, m: map<Key, Flow>, f: Flow) { KeyOf(keys, f) in m && m[KeyOf(keys, f)] == f }

  /** The table and the map have the same entries, each under its own key. */
  ghost predicate Refines(keys: Reading, t: Table, m: map<Key, Flow>) {
    && DistinctKeys(keys, t)
    && (forall f :: f in t <==> Holds(keys, m, f))
    && (forall k :: k in m ==> KeyOf(keys, m[k]) == k)
  }

  /** The flow that an ADD of f replaces, if any, has the key of f. */
  predicate ReplacesOwnKey(r: Reading, keys: Reading, t: Table, f: Flow) {
    var i := FirstStrict(r, t, f);
    i < |t| ==> KeyOf(keys, t[i]) == KeyOf(keys, f)
  }

  lemma AddMembers(r: Reading, keys: Reading, t: Table, f: Flow, g: Flow)
    requires DistinctKeys(keys, t)
    ensures var i := FirstStrict(r, t, f);
            g in Add(r, t, f) <==> g == f || (g in t && (i < |t| ==> g != t[i]))
  {
    hide StrictMatch, KeyOf, FirstStrict, InsertPoint, DistinctKeys;
    var rest := Erase(t, FirstStrict(r, t, f));
    InsertedMembers(rest, InsertPoint(rest, f.priority), f, g);
    ErasedMembers(keys, t, FirstStrict(r, t, f), g);
  }

  lemma ErasedMembers(keys: Reading, t: Table, i: nat, g: Flow)
    requires DistinctKeys(keys, t)
    ensures g in Erase(t, i) <==> g in t && (i < |t| ==> g != t[i])
  {
    hide KeyOf;
    var rest := Erase(t, i);
    if g in rest {
      var n :| 0 <= n < |rest| && rest[n] == g;
      assert t[if n < i then n else n + 1] == g;
    }
    if g in t && (i < |t| ==> g != t[i]) {
      var n :| 0 <= n < |t| && t[n] == g;
      assert i < |t| ==> rest[if n < i then n else n - 1] == g;
    }
  }

  lemma InsertedMembers(t: Table, k: nat, f: Flow, g: Flow)
    requires k <= |t|
    ensures g in InsertAt(t, k, f) <==> g == f || g in t
  {
    assert t == t[..k] + t[k..];
  }

  /** An ADD keeps table and map together exactly when it replaces nothing but its own key. */
  lemma AddRefines(r: Reading, keys: Reading, t: Table, m: map<Key, Flow>, f: Flow)
    requires Comparable(r, keys) && Refines(keys, t, m)
    ensures Refines(keys, Add(r, t, f), m[KeyOf(keys, f) := f]) <==> ReplacesOwnKey(r, keys, t, f)
  {
    hide StrictMatch, KeyOf, FirstStrict, Add;
    var i, t', m' := FirstStrict(r, t, f), Add(r, t, f), m[KeyOf(keys, f) := f];
    if ReplacesOwnKey(r, keys, t, f) {
      AddKeepsKeys(r, keys, t, f);
      forall g ensures g in t' <==> Holds(keys, m', g) {
        AddMembers(r, keys, t, f, g);
        if g in t { OwnKeyReplaced(r, keys, t, f, g); }
      }
    } else {
      AddMembers(r, keys, t, f, t[i]);
      assert t[i] in t && Holds(keys, m', t[i]) && t[i] !in t';
    }
  }

  /** What has the key of f in the table is what the ADD of f erases. */
  lemma OwnKeyReplaced(r: Reading, keys: Reading, t: Table, f: Flow, g: Flow)
    requires Comparable(r, keys) && DistinctKeys(keys, t) && ReplacesOwnKey(r, keys, t, f) && g in t
    ensures var i := FirstStrict(r, t, f); KeyOf(keys, g) == KeyOf(keys, f) <==> i < |t| && g == t[i]
  {
    hide StrictMatch, KeyOf;
    var i := FirstStrict(r, t, f);
    var n :| 0 <= n < |t| && t[n] == g;
    if KeyOf(keys, g) == KeyOf(keys, f) {
      SameKeyIsStrict(r, keys, g, f);
      assert i <= n;
    }
  }

  lemma AddKeepsKeys(r: Reading, keys: Reading, t: Table, f: Flow)
    requires Comparable(r, keys) && DistinctKeys(keys, t) && ReplacesOwnKey(r, keys, t, f)
    ensures DistinctKeys(keys, Add(r, t, f))
  {
    hide StrictMatch, KeyOf, FirstStrict, InsertPoint;
    var i := FirstStrict(r, t, f);
    var rest := Erase(t, i);
    forall n | 0 <= n < |rest| ensures KeyOf(keys, rest[n]) != KeyOf(keys, f) {
      var m := if n < i then n else n + 1;
      assert rest[n] == t[m];
      OwnKeyReplaced(r, keys, t, f, t[m]);
    }
    assert DistinctKeys(keys, rest);
  }

  lemma {:induction false} DeleteKeepsKeys(r: Reading, keys: Reading, t: Table, given: Pattern)
    requires DistinctKeys(keys, t)
    ensures DistinctKeys(keys, Delete(r, t, given))
  {
    hide Covers, KeyOf;
    if t != [] {
      var rest := Delete(r, t[1..], given);
      DeleteKeepsKeys(r, keys, t[1..], given);
      forall n | 0 <= n < |rest| ensures KeyOf(keys, t[0]) != KeyOf(keys, rest[n]) {
        DeleteMembers(r, t[1..], given, rest[n]);
        var m :| 0 <= m < |t[1..]| && t[1..][m] == rest[n];
        assert t[m + 1] == rest[n];
      }
    }
  }

  lemma DeleteRefines(r: Reading, keys: Reading, t: Table, m: map<Key, Flow>, given: Pattern)
    requires Refines(keys, t, m)
    ensures Refines(keys, Delete(r, t, given), MapApply(r, keys, m, DeleteFlows(given)))
  {
    hide Covers, KeyOf, Delete;
    DeleteKeepsKeys(r, keys, t, given);
    forall f ensures f in Delete(r, t, given) <==> Holds(keys, MapApply(r, keys, m, DeleteFlows(given)), f) {
      DeleteMembers(r, t, given, f);
    }
  }

  ghost predicate AlwaysRefines(r: Reading, keys: Reading, h: seq<Mod>) {
    forall k :: 0 <= k <= |h| ==> Refines(keys, Run(r, h[..k]), MapRun(r, keys, h[..k]))
  }

  ghost predicate AlwaysOwnKey(r: Reading, keys: Reading, h: seq<Mod>) {
    forall k :: 0 <= k < |h| && h[k].AddFlow? ==> ReplacesOwnKey(r, keys, Run(r, h[..k]), h[k].flow)
  }

  lemma AlwaysRefinesStep(r: Reading, keys: Reading, h: seq<Mod>)
    requires h != []
    ensures var before := h[..|h| - 1];
            && (AlwaysRefines(r, keys, h) <==>
                AlwaysRefines(r, keys, before) && Refines(keys, Run(r, h), MapRun(r, keys, h)))
            && (AlwaysOwnKey(r, keys, h) <==>
                AlwaysOwnKey(r, keys, before) &&
                (h[|h| - 1].AddFlow? ==> ReplacesOwnKey(r, keys, Run(r, before), h[|h| - 1].flow)))
  {
    hide Run, MapRun, Refines, ReplacesOwnKey;
    var before := h[..|h| - 1];
    PrefixOfInit(h);
    if AlwaysRefines(r, keys, h) {
      forall k | 0 <= k <= |before| ensures Refines(keys, Run(r, before[..k]), MapRun(r, keys, before[..k])) {
        assert before[..k] == h[..k];
      }
      assert Refines(keys, Run(r, h[..|h|]), MapRun(r, keys, h[..|h|]));
    }
    if AlwaysRefines(r, keys, before) && Refines(keys, Run(r, h), MapRun(r, keys, h)) {
      forall k | 0 <= k <= |h| ensures Refines(keys, Run(r, h[..k]), MapRun(r, keys, h[..k])) {
        if k < |h| { assert before[..k] == h[..k]; }
      }
    }
  }

  /** Under either reading, and for keys that are classes of packets as well as for those that
      the code compares: the ordered table is at all times equal, entry for entry, to the
      abstract map exactly when every ADD replaces nothing but its own key. */
  lemma {:induction false} RefinesMapIff(r: Reading, keys: Reading, h: seq<Mod>)
    requires Comparable(r, keys)
    ensures AlwaysRefines(r, keys, h) <==> AlwaysOwnKey(r, keys, h)
    ensures AlwaysRefines(r, keys, h) ==> Refines(keys, Run(r, h), MapRun(r, keys, h))
  {
    hide Refines, ReplacesOwnKey, AlwaysRefines, AlwaysOwnKey, Add, Delete, KeyOf;
    if h == [] {
      NothingRefines(r, keys);
    } else {
      var before, m := h[..|h| - 1], h[|h| - 1];
      AlwaysRefinesStep(r, keys, h);
      RefinesMapIff(r, keys, before);
      if AlwaysRefines(r, keys, before) {
        match m
        case AddFlow(f) => AddRefines(r, keys, Run(r, before), MapRun(r, keys, before), f);
        case DeleteFlows(given) => DeleteRefines(r, keys, Run(r, before), MapRun(r, keys, before), given);
      }
    }
  }

  lemma NothingRefines(r: Reading, keys: Reading)
    ensures AlwaysRefines(r, keys, []) && AlwaysOwnKey(r, keys, []) && Refines(keys, Run(r, []), MapRun(r, keys, []))
  {
    var none: seq<Mod> := [];
    assert forall k :: 0 <= k <= |none| ==> none[..k] == none;
  }

  // ---------- runs whose matches the reading can compare ----------

  /** Every flow added in the run is one the reading can compare. */
  ghost predicate AdmissibleRun(r: Reading, h: seq<Mod>) {
    forall q :: 0 <= q < |h| && h[q].AddFlow? ==> Admissible(r, h[q].flow.pattern)
  }

  lemma StrictIsSameKey(r: Reading, a: Flow, b: Flow)
    requires Admissible(r, a.pattern) && Admissible(r, b.pattern)
    ensures StrictMatch(r, a, b) <==> KeyOf(r, a) == KeyOf(r, b)
  {
    hide Strict, ClassOf;
    StrictIffSameClass(r, a.pattern, b.pattern);
  }

  /** Every entry of the table was added by the run. */
  lemma EntryWasAdded(r: Reading, h: seq<Mod>, n: nat) returns (q: nat)
    requires n < |Run(r, h)|
    ensures q < |h| && h[q] == AddFlow(Run(r, h)[n])
  {
    hide Run, InForce;
    var es := TableListsSurvivors(r, h);
    assert es[n] in es;
    InForceWasAdded(r, h, es[n]);
    q := es[n].when;
  }

  lemma AdmissibleOwnKey(r: Reading, h: seq<Mod>)
    requires AdmissibleRun(r, h)
    ensures AlwaysOwnKey(r, r, h)
  {
    hide Run, Admissible, KeyOf, StrictMatch, FirstStrict;
    forall k | 0 <= k < |h| && h[k].AddFlow? ensures ReplacesOwnKey(r, r, Run(r, h[..k]), h[k].flow) {
      var t := Run(r, h[..k]);
      var i := FirstStrict(r, t, h[k].flow);
      if i < |t| {
        var q := EntryWasAdded(r, h[..k], i);
        StrictIsSameKey(r, t[i], h[k].flow);
      }
    }
  }

  /** As documented, every run keeps the ordered table equal, entry for entry, to the map from
      classes of packets; as written under the zero convention, to the map from stored values. */
  lemma TableRefinesMap(r: Reading, h: seq<Mod>, f: Flow)
    requires AdmissibleRun(r, h)
    ensures f in Run(r, h) <==> KeyOf(r, f) in MapRun(r, r, h) && MapRun(r, r, h)[KeyOf(r, f)] == f
    ensures forall i, j :: 0 <= i < j < |Run(r, h)| ==> KeyOf(r, Run(r, h)[i]) != KeyOf(r, Run(r, h)[j])
  {
    hide Run, MapRun, KeyOf, AlwaysRefines, AlwaysOwnKey;
    AdmissibleOwnKey(r, h);
    RefinesMapIff(r, r, h);
  }

  /** Then no two entries strictly match. */
  lemma KeysDistinct(r: Reading, h: seq<Mod>, a: Stamped, b: Stamped)
    requires AdmissibleRun(r, h)
    requires InForce(r, h, a) && InForce(r, h, b) && a != b
    ensures KeyOf(r, a.flow) != KeyOf(r, b.flow) && !StrictMatch(r, a.flow, b.flow)
  {
    hide StrictMatch, KeyOf, Admissible, InForce, Run;
    var t := Run(r, h);
    var es := TableListsSurvivors(r, h);
    assert a in es && b in es;
    var i :| 0 <= i < |es| && es[i] == a;
    var j :| 0 <= j < |es| && es[j] == b;
    TableRefinesMap(r, h, a.flow);
    assert KeyOf(r, t[if i < j then i else j]) != KeyOf(r, t[if i < j then j else i]);
    InForceWasAdded(r, h, a);
    InForceWasAdded(r, h, b);
    StrictIsSameKey(r, a.flow, b.flow);
  }

  // ---------- when a flow is in force until something removes it ----------

  /** A modification m removes an entry holding f. */
  predicate Removes(r: Reading, m: Mod, f: Flow) {
    match m
    case AddFlow(g) => StrictMatch(r, f, g)
    case DeleteFlows(given) => Covers(r, given, f.pattern)
  }

  /** The ADD at position e.when put e.flow in force, and nothing later strictly matches or
      covers it. */
  ghost predicate Survives(r: Reading, h: seq<Mod>, e: Stamped) {
    && e.when < |h| && h[e.when] == AddFlow(e.flow)
    && forall q :: e.when < q < |h| ==> !Removes(r, h[q], e.flow)
  }

  /** The flows in force are those that nothing later removes. */
  ghost predicate AllSurvive(r: Reading, h: seq<Mod>) { forall e :: InForce(r, h, e) <==> Survives(r, h, e) }

  lemma SurvivesStep(r: Reading, h: seq<Mod>, m: Mod, e: Stamped)
    ensures Survives(r, h + [m], e) <==>
            (Survives(r, h, e) && !Removes(r, m, e.flow)) || (m == AddFlow(e.flow) && e.when == |h|)
    ensures Survives(r, h, e) ==> e.when < |h|
  {
    hide Removes;
    var h' := h + [m];
    assert h'[|h|] == m;
    if Survives(r, h', e) {
      assert forall q :: e.when < q < |h| ==> h'[q] == h[q];
    }
  }

  lemma DeleteAllSurvive(r: Reading, h: seq<Mod>, given: Pattern)
    requires AllSurvive(r, h)
    ensures AllSurvive(r, h + [DeleteFlows(given)])
  {
    hide InForce, Covers, Survives;
    var m := DeleteFlows(given);
    forall e ensures InForce(r, h + [m], e) <==> Survives(r, h + [m], e) {
      InForceStep(r, h, m, e);
      SurvivesStep(r, h, m, e);
    }
  }

  /** A flow is treated by an ADD as by a removal exactly when the ADD displaces it or does not
      strictly match it. */
  lemma AddSurvives(r: Reading, h: seq<Mod>, f: Flow, e: Stamped)
    requires InForce(r, h, e) <==> Survives(r, h, e)
    ensures (InForce(r, h + [AddFlow(f)], e) <==> Survives(r, h + [AddFlow(f)], e)) <==>
            (InForce(r, h, e) && StrictMatch(r, e.flow, f) ==> Displaces(r, h, f, e))
  {
    hide InForce, StrictMatch, Survives;
    InForceStep(r, h, AddFlow(f), e);
    SurvivesStep(r, h, AddFlow(f), e);
  }

  lemma OneIsDisplaced(r: Reading, h: seq<Mod>, f: Flow, e: Stamped)
    requires OneMatchAtMost(r, Run(r, h), f) && InForce(r, h, e) && StrictMatch(r, e.flow, f)
    ensures Displaces(r, h, f, e)
  {
    hide InForce, Displaces, StrictMatch, Run, Before, FirstStrict;
    var es := TableListsSurvivors(r, h);
    assert e in es;
    FirstStrictIsDisplaced(r, h, Run(r, h), es, f, e);
  }

  lemma SecondIsNotDisplaced(r: Reading, h: seq<Mod>, f: Flow) returns (e: Stamped)
    requires !OneMatchAtMost(r, Run(r, h), f)
    ensures InForce(r, h, e) && StrictMatch(r, e.flow, f) && !Displaces(r, h, f, e)
  {
    hide InForce, Displaces, StrictMatch, Run, FirstStrict;
    var t := Run(r, h);
    var es := TableListsSurvivors(r, h);
    var i := FirstStrict(r, t, f);
    var n: nat :| n < |t| && n != i && StrictMatch(r, t[n], f);
    e := es[n];
    assert e in es;
    FirstStrictIsDisplaced(r, h, t, es, f, e);
    assert Before(es[i], es[n]);
  }

  /** An ADD keeps it so exactly when its loop may stop at the first strict match. */
  lemma AddAllSurvive(r: Reading, h: seq<Mod>, f: Flow)
    requires AllSurvive(r, h)
    ensures AllSurvive(r, h + [AddFlow(f)]) <==> OneMatchAtMost(r, Run(r, h), f)
  {
    hide InForce, Displaces, StrictMatch, Survives, Run, OneMatchAtMost;
    if OneMatchAtMost(r, Run(r, h), f) {
      forall e ensures InForce(r, h + [AddFlow(f)], e) <==> Survives(r, h + [AddFlow(f)], e) {
        AddSurvives(r, h, f, e);
        if InForce(r, h, e) && StrictMatch(r, e.flow, f) { OneIsDisplaced(r, h, f, e); }
      }
    } else {
      var e := SecondIsNotDisplaced(r, h, f);
      AddSurvives(r, h, f, e);
    }
  }

  ghost predicate AlwaysSurvive(r: Reading, h: seq<Mod>) {
    forall k :: 0 <= k <= |h| ==> AllSurvive(r, h[..k])
  }

  lemma AlwaysSurviveStep(r: Reading, h: seq<Mod>)
    requires h != []
    ensures AlwaysSurvive(r, h) <==> AlwaysSurvive(r, h[..|h| - 1]) && AllSurvive(r, h)
  {
    hide AllSurvive;
    var before := h[..|h| - 1];
    PrefixOfInit(h);
    if AlwaysSurvive(r, h) {
      forall k | 0 <= k <= |before| ensures AllSurvive(r, before[..k]) { assert before[..k] == h[..k]; }
      assert AllSurvive(r, h[..|h|]);
    }
    if AlwaysSurvive(r, before) && AllSurvive(r, h) {
      forall k | 0 <= k <= |h| ensures AllSurvive(r, h[..k]) {
        if k < |h| { assert before[..k] == h[..k]; }
      }
    }
  }

  /** Under either reading, a flow is at all times of a run in force exactly when no later
      modification strictly matches or covers it, if and only if every ADD may stop at its
      first strict match. */
  lemma {:induction false} AlwaysSurviveIff(r: Reading, h: seq<Mod>)
    ensures AlwaysSurvive(r, h) <==> BreakIsEnough(r, h)
    ensures AlwaysSurvive(r, h) ==> AllSurvive(r, h)
  {
    hide AllSurvive, AlwaysSurvive, OneMatchAtMost, BreakIsEnough, Run;
    if h == [] {
      NothingSurvives(r);
    } else {
      var before, m := h[..|h| - 1], h[|h| - 1];
      assert h == before + [m];
      AlwaysSurviveStep(r, h);
      NeverPairedStep(r, h);
      AlwaysSurviveIff(r, before);
      if AlwaysSurvive(r, before) {
        match m
        case AddFlow(f) => AddAllSurvive(r, before, f);
        case DeleteFlows(given) => DeleteAllSurvive(r, before, given);
      }
    }
  }

  lemma NothingSurvives(r: Reading)
    ensures AlwaysSurvive(r, []) && BreakIsEnough(r, []) && AllSurvive(r, [])
  {
    var none: seq<Mod> := [];
    assert forall k :: 0 <= k <= |none| ==> none[..k] == none;
  }

  /** When the reading can compare all flows added, no ADD meets a second strict match. */
  lemma AdmissibleBreak(r: Reading, h: seq<Mod>)
    requires AdmissibleRun(r, h)
    ensures BreakIsEnough(r, h)
  {
    hide Run, Admissible, KeyOf, StrictMatch, FirstStrict;
    forall k | 0 <= k < |h| && h[k].AddFlow? ensures OneMatchAtMost(r, Run(r, h[..k]), h[k].flow) {
      var t := Run(r, h[..k]);
      forall n | 0 <= n < |t| ensures StrictMatch(r, t[n], h[k].flow) <==> KeyOf(r, t[n]) == KeyOf(r, h[k].flow) {
        var q := EntryWasAdded(r, h[..k], n);
        StrictIsSameKey(r, t[n], h[k].flow);
      }
      TableRefinesMap(r, h[..k], h[k].flow);
    }
  }

  /** Then a flow is in force exactly when no later modification strictly matches or covers it. */
  lemma InForceIffSurvives(r: Reading, h: seq<Mod>, e: Stamped)
    requires AdmissibleRun(r, h)
    ensures InForce(r, h, e) <==> Survives(r, h, e)
  {
    hide InForce, Survives, BreakIsEnough, AdmissibleRun;
    AdmissibleBreak(r, h);
    AlwaysSurviveIff(r, h);
  }

  // ---------- lookup ----------

  ghost predicate Candidate(r: Reading, h: seq<Mod>, packet: Match, e: Stamped) {
    InForce(r, h, e) && Accepts(e.flow.pattern, packet)
  }

  /** The flow that lookup selects, with the ADD that put it in force. */
  ghost predicate Selected(r: Reading, h: seq<Mod>, packet: Match, e: Stamped) {
    Candidate(r, h, packet, e) && forall o :: Candidate(r, h, packet, o) && o != e ==> Before(e, o)
  }

  /** Lookup after any run, under either reading, selects, among the flows in force that accept the packet, the one
      with the least priority value, and the newest of those.  It finds one if there is one. */
  lemma LookupIsNewestOfLeast(r: Reading, h: seq<Mod>, packet: Match)
    ensures Lookup(Run(r, h), packet).None? <==> forall e :: !Candidate(r, h, packet, e)
    ensures Lookup(Run(r, h), packet).Some? ==>
              exists e :: Selected(r, h, packet, e) && e.flow == Lookup(Run(r, h), packet).value
  {
    hide Accepts, InForce, Before, Run;
    var t := Run(r, h);
    var es := TableListsSurvivors(r, h);
    var i := FirstAccepting(t, packet);
    forall o | Candidate(r, h, packet, o) ensures i < |t| && (o == es[i] || Before(es[i], o)) {
      assert o in es;
      var n :| 0 <= n < |t| && es[n] == o;
      assert t[n] == o.flow;
    }
    if i < |t| {
      assert es[i] in es;
      assert Selected(r, h, packet, es[i]);
    }
  }

  /** Section 3.4 asks for the highest priority.  The selected flow has it exactly when the
      flows that accept the packet all have the same priority. */
  lemma LookupIsHighestIff(r: Reading, h: seq<Mod>, packet: Match)
    requires Lookup(Run(r, h), packet).Some?
    ensures (forall o :: Candidate(r, h, packet, o) ==>
                           o.flow.priority <= Lookup(Run(r, h), packet).value.priority) <==>
            (forall o, o' :: Candidate(r, h, packet, o) && Candidate(r, h, packet, o') ==>
                               o.flow.priority == o'.flow.priority)
  {
    hide Candidate, Run;
    LookupIsNewestOfLeast(r, h, packet);
  }

  ghost predicate Ascending(t: Table) { forall i, j :: 0 <= i < j < |t| ==> t[i].priority <= t[j].priority }

  lemma LookupEraseOther(t: Table, i: nat, packet: Match)
    requires i < |t| ==> i != FirstAccepting(t, packet)
    ensures Lookup(Erase(t, i), packet) == Lookup(t, packet)
  {
    hide Accepts, Lookup, FirstAccepting;
    var n, rest := FirstAccepting(t, packet), Erase(t, i);
    var m := if i < |t| && i < n then n - 1 else n;
    LookupIs(t, packet);
    LookupIs(rest, packet);
    if i < |t| {
      forall j | 0 <= j < m ensures !Accepts(rest[j].pattern, packet) {
        assert rest[j] == t[if i <= j then j + 1 else j];
      }
      if n < |t| { assert rest[m] == t[n]; }
      FirstIs(rest, packet, m);
    }
  }

  lemma FirstIs(t: Table, packet: Match, n: nat)
    requires n <= |t|
    requires n < |t| ==> Accepts(t[n].pattern, packet)
    requires forall j :: 0 <= j < n ==> !Accepts(t[j].pattern, packet)
    ensures FirstAccepting(t, packet) == n
  {
    hide Accepts;
    var i := FirstAccepting(t, packet);
  }

  lemma LookupInsert(t: Table, f: Flow, packet: Match)
    requires Ascending(t)
    ensures Lookup(Insert(t, f), packet) == Preferred(f, Lookup(t, packet), packet)
  {
    hide Accepts;
    var n, k := FirstAccepting(t, packet), InsertPoint(t, f.priority);
    FirstIs(Insert(t, f), packet, if n < k then n else if Accepts(f.pattern, packet) then k else n + 1);
  }

  /** The choice between a newly added flow and the flow selected before. */
  function Preferred(f: Flow, before: Option<Flow>, packet: Match): Option<Flow> {
    if Accepts(f.pattern, packet) && (before.None? || f.priority <= before.value.priority) then Some(f) else before
  }

  /** The entry that f replaces is the one selected so far, f does not accept the packet, and
      lookup would not find an equal flow behind it. */
  predicate LosesSelected(r: Reading, t: Table, f: Flow, packet: Match) {
    var i := FirstStrict(r, t, f);
    && i < |t| && i == FirstAccepting(t, packet) && !Accepts(f.pattern, packet)
    && Lookup(Erase(t, i), packet) != Some(t[i])
  }

  lemma SortedTable(r: Reading, h: seq<Mod>)
    ensures Ascending(Run(r, h))
  {
    hide InForce;
    var t := Run(r, h);
    var es := TableListsSurvivors(r, h);
    forall i, j | 0 <= i < j < |t| ensures t[i].priority <= t[j].priority { assert Before(es[i], es[j]); }
  }

  /** In every run and under either reading, ADD leaves the selected flow alone, unless the new
      flow accepts the packet and its priority value is not larger, exactly when the packet does
      not lose the flow selected for it. */
  lemma AddIsLocalIff(r: Reading, h: seq<Mod>, f: Flow, packet: Match)
    ensures Lookup(Run(r, h + [AddFlow(f)]), packet) == Preferred(f, Lookup(Run(r, h), packet), packet) <==>
            !LosesSelected(r, Run(r, h), f, packet)
  {
    hide StrictMatch, Covers, Accepts, Lookup, FirstStrict, FirstAccepting;
    var t := Run(r, h);
    assert (h + [AddFlow(f)])[..|h|] == h;
    assert Run(r, h + [AddFlow(f)]) == Add(r, t, f);
    hide Run, Add;
    SortedTable(r, h);
    var i, n := FirstStrict(r, t, f), FirstAccepting(t, packet);
    LookupAdd(r, t, f, packet);
    LookupIs(t, packet);
    if i < |t| && i == n {
      if Accepts(f.pattern, packet) {
        StrictSamePriority(r, t[i], f);
        LookupEraseReplaced(t, i, f, packet);
      }
    } else {
      LookupEraseOther(t, i, packet);
    }
  }

  lemma LookupAdd(r: Reading, t: Table, f: Flow, packet: Match)
    requires Ascending(t)
    ensures Lookup(Add(r, t, f), packet) == Preferred(f, Lookup(Erase(t, FirstStrict(r, t, f)), packet), packet)
  {
    hide Accepts, StrictMatch, Lookup, Preferred;
    var i := FirstStrict(r, t, f);
    assert Ascending(Erase(t, i));
    LookupInsert(Erase(t, i), f, packet);
  }

  lemma LookupIs(t: Table, packet: Match)
    ensures var n := FirstAccepting(t, packet); Lookup(t, packet) == if n < |t| then Some(t[n]) else None
  {}

  lemma StrictSamePriority(r: Reading, a: Flow, b: Flow)
    requires StrictMatch(r, a, b)
    ensures a.priority == b.priority
  {}

  /** The flow selected so far is one that f replaces, and f does not accept the packet. */
  predicate ReplacesSelected(r: Reading, t: Table, f: Flow, packet: Match) {
    !Accepts(f.pattern, packet) &&
    match Lookup(t, packet) case Some(g) => StrictMatch(r, g, f) case None => false
  }

  /** With distinct keys, a flow whose entry is erased is selected no more. */
  lemma LookupElsewhere(r: Reading, t: Table, i: nat, packet: Match)
    requires DistinctKeys(r, t) && i < |t|
    ensures Lookup(Erase(t, i), packet) != Some(t[i])
  {
    hide Accepts, KeyOf;
    var n := FirstAccepting(Erase(t, i), packet);
    if n < |Erase(t, i)| {
      var m := if n < i then n else n + 1;
      assert Erase(t, i)[n] == t[m];
      assert KeyOf(r, t[if m < i then m else i]) != KeyOf(r, t[if m < i then i else m]);
    }
  }

  /** Where entries have distinct keys, the condition is that f does not replace the selected
      flow by one that rejects the packet. */
  lemma AddIsLocalIffAdmissible(r: Reading, h: seq<Mod>, f: Flow, packet: Match)
    requires AdmissibleRun(r, h) && Admissible(r, f.pattern)
    ensures Lookup(Run(r, h + [AddFlow(f)]), packet) == Preferred(f, Lookup(Run(r, h), packet), packet) <==>
            !ReplacesSelected(r, Run(r, h), f, packet)
  {
    hide Run, Preferred, Accepts, StrictMatch, KeyOf, Lookup, FirstStrict, FirstAccepting, Admissible;
    var t := Run(r, h);
    AddIsLocalIff(r, h, f, packet);
    TableRefinesMap(r, h, f);
    LookupIs(t, packet);
    var n, i := FirstAccepting(t, packet), FirstStrict(r, t, f);
    if i < |t| { LookupElsewhere(r, t, i, packet); }
    if n < |t| && StrictMatch(r, t[n], f) {
      assert i <= n;
      OneStrictEntry(r, h, f, i, n);
    }
  }

  /** No two entries strictly match f. */
  lemma OneStrictEntry(r: Reading, h: seq<Mod>, f: Flow, i: nat, n: nat)
    requires AdmissibleRun(r, h) && Admissible(r, f.pattern) && i <= n < |Run(r, h)|
    requires StrictMatch(r, Run(r, h)[i], f) && StrictMatch(r, Run(r, h)[n], f)
    ensures i == n
  {
    hide Run, StrictMatch, KeyOf, Admissible;
    TableRefinesMap(r, h, f);
    var p := EntryWasAdded(r, h, i);
    var q := EntryWasAdded(r, h, n);
    assert i < n ==> KeyOf(r, Run(r, h)[i]) != KeyOf(r, Run(r, h)[n]);
    StrictIsSameKey(r, Run(r, h)[i], f);
    StrictIsSameKey(r, Run(r, h)[n], f);
  }

  /** ADD of f changes the selected flow only for packets that f accepts, also when it replaces
      an entry, and then only if its priority value is not larger. */
  lemma AddIsLocal(h: seq<Mod>, f: Flow, packet: Match)
    ensures Lookup(Run(Documented, h + [AddFlow(f)]), packet) ==
            Preferred(f, Lookup(Run(Documented, h), packet), packet)
  {
    hide StrictMatch, Accepts, Run, Preferred, Lookup;
    AddIsLocalIffAdmissible(Documented, h, f, packet);
    var t := Run(Documented, h);
    LookupIs(t, packet);
    if Lookup(t, packet).Some? && StrictMatch(Documented, Lookup(t, packet).value, f) {
      SameKeyAccepts(Lookup(t, packet).value, f, packet);
    }
  }

  lemma SameKeyAccepts(a: Flow, b: Flow, packet: Match)
    requires StrictMatch(Documented, a, b)
    ensures a.priority == b.priority
    ensures Accepts(a.pattern, packet) <==> Accepts(b.pattern, packet)
  {
    hide Strict, Accepts;
    StrictIffSamePackets(a.pattern, b.pattern);
  }

  lemma LookupEraseReplaced(t: Table, i: nat, f: Flow, packet: Match)
    requires i < |t| && t[i].priority == f.priority && Accepts(f.pattern, packet) && Accepts(t[i].pattern, packet)
    requires Ascending(t) && i == FirstAccepting(t, packet)
    ensures Preferred(f, Lookup(Erase(t, i), packet), packet) == Preferred(f, Lookup(t, packet), packet)
  {
    hide Accepts, Lookup, FirstAccepting;
    var rest := Erase(t, i);
    var n := FirstAccepting(rest, packet);
    LookupIs(t, packet);
    LookupIs(rest, packet);
    if n < |rest| {
      assert rest[n] == t[if n < i then n else n + 1];
    }
  }

  /** As written, an ADD that pins a field to zero replaces the flow that wildcards the field,
      and a packet that the new flow does not accept is no longer matched. */
  lemma AsWrittenAddIsNotLocal()
    ensures var wide, narrow := OnPort(0, EVERY), OnPort(0, EVERY - {IN_PORT});
            var packet := ANYTHING.(inPort := 3);
            && Normal(wide.pattern.fields) && Normal(narrow.pattern.fields)
            && !Accepts(narrow.pattern, packet)
            && Lookup(Run(AsWritten, [AddFlow(wide)]), packet) == Some(wide)
            && Lookup(Run(AsWritten, [AddFlow(wide), AddFlow(narrow)]), packet) == None
  {
    var wide, narrow := OnPort(0, EVERY), OnPort(0, EVERY - {IN_PORT});
    var packet := ANYTHING.(inPort := 3);
    ReplacedByOne(AsWritten, wide, narrow);
    assert Accepts(wide.pattern, packet);
    assert !Accepts(narrow.pattern, packet);
  }

  /** The same run in terms of the map from classes of packets: the two flows accept different
      packets, and the table has lost one of them. */
  lemma AsWrittenLosesClass()
    ensures var wide, narrow := OnPort(0, EVERY), OnPort(0, EVERY - {IN_PORT});
            var h := [AddFlow(wide), AddFlow(narrow)];
            && AdmissibleRun(AsWritten, h) && KeyOf(Documented, wide) != KeyOf(Documented, narrow)
            && Holds(Documented, MapRun(AsWritten, Documented, h), wide) && wide !in Run(AsWritten, h)
            && !AlwaysRefines(AsWritten, Documented, h)
  {
    var wide, narrow := OnPort(0, EVERY), OnPort(0, EVERY - {IN_PORT});
    assert StrictMatch(AsWritten, wide, narrow);
    assert ClassOf(Documented, wide.pattern).inPort != ClassOf(Documented, narrow.pattern).inPort;
    LosesKey(AsWritten, Documented, wide, narrow);
  }

  /** An ADD that strictly matches a flow with another key. */
  lemma LosesKey(r: Reading, keys: Reading, a: Flow, b: Flow)
    requires Comparable(r, keys) && StrictMatch(r, a, b) && KeyOf(keys, a) != KeyOf(keys, b)
    ensures var h := [AddFlow(a), AddFlow(b)];
            Holds(keys, MapRun(r, keys, h), a) && a !in Run(r, h) && !AlwaysRefines(r, keys, h)
  {
    hide StrictMatch, KeyOf, Run, Refines;
    var h := [AddFlow(a), AddFlow(b)];
    StrictSamePriority(r, a, b);
    ReplacedByOne(r, a, b);
    TwoInMap(r, keys, a, b);
    RefinesMapIff(r, keys, h);
    LostFlow(keys, Run(r, h), MapRun(r, keys, h), a);
  }

  lemma TwoInMap(r: Reading, keys: Reading, a: Flow, b: Flow)
    ensures MapRun(r, keys, [AddFlow(a), AddFlow(b)]) == map[KeyOf(keys, a) := a][KeyOf(keys, b) := b]
  {
    hide KeyOf;
    assert [AddFlow(a), AddFlow(b)][..1] == [AddFlow(a)] && [AddFlow(a)][..0] == [];
    assert MapRun(r, keys, [AddFlow(a)]) == map[KeyOf(keys, a) := a];
  }

  lemma LostFlow(keys: Reading, t: Table, m: map<Key, Flow>, f: Flow)
    requires Holds(keys, m, f) && f !in t
    ensures !Refines(keys, t, m)
  {}

  lemma ReplacedByOne(r: Reading, a: Flow, b: Flow)
    requires a.priority == b.priority && StrictMatch(r, a, b)
    ensures Run(r, [AddFlow(a)]) == [a]
    ensures Run(r, [AddFlow(a), AddFlow(b)]) == [b]
  {
    hide StrictMatch, Add;
    assert [AddFlow(a), AddFlow(b)][..1] == [AddFlow(a)] && [AddFlow(a)][..0] == [];
    AddInFront(r, [], a);
    AddInFront(r, [a], b);
    assert [a] + Erase([], 0) == [a] && [b] + Erase([a], 0) == [b];
  }
}
