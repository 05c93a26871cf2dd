/** The published actor directory: which raw display string belongs to whom, and which strings belong to
    nobody. */
module ActorDirectory {
  import opened Options

  /** A group of activity rows as one identity. `declared` means a configured identity claimed it;
      `keyless` that its rows carry no stored actor key. */
  datatype Entry = Entry(name: string, actors: set<string>, bot: bool, declared: bool, keyless: bool)

  datatype Identity = Identity(name: string, actors: set<string>, bot: bool)

  /** Display order of names: whether the first comes at or before the second. */
  type Order = (string, string) -> bool

  ghost predicate IsTotal(order: Order) {
    && (forall a, b :: order(a, b) || order(b, a))
    && (forall a, b :: order(a, b) && order(b, a) ==> a == b)
    && forall a, b, c :: order(a, b) && order(b, c) ==> order(a, c)
  }

  ghost predicate Named(entries: seq<Entry>) {
    forall i :: 0 <= i < |entries| ==> entries[i].name in entries[i].actors
  }

  // ----- folding keyless groups

  /** The stored groups that share a string with group `i`. */
  function Targets(entries: seq<Entry>, i: nat): set<nat>
    requires i < |entries|
  {
    set t: nat | t < |entries| && !entries[t].keyless && entries[t].actors * entries[i].actors != {} :: t
  }

  /** A keyless group folds into the one stored group it shares a string with, if there is just one. */
  predicate FoldsInto(entries: seq<Entry>, i: nat, t: nat)
    requires i < |entries|
  {
    entries[i].keyless && Targets(entries, i) == {t}
  }

  predicate IsFolded(entries: seq<Entry>, i: nat)
    requires i < |entries|
  {
    entries[i].keyless && |Targets(entries, i)| == 1
  }

  /** Entry `t` with what the first `n` groups fold into it. */
  function Absorbed(entries: seq<Entry>, t: nat, n: nat): (e: Entry)
    requires t < |entries| && n <= |entries|
    ensures e.name == entries[t].name && e.declared == entries[t].declared && e.keyless == entries[t].keyless
    ensures entries[t].actors <= e.actors
  {
    if n == 0 then entries[t]
    else
      var before := Absorbed(entries, t, n - 1);
      if FoldsInto(entries, n - 1, t) then before.(actors := before.actors + entries[n - 1].actors, bot := before.bot || entries[n - 1].bot)
      else before
  }

  function Survivors(entries: seq<Entry>, n: nat): seq<Entry>
    requires n <= |entries|
  {
    if n == 0 then []
    else Survivors(entries, n - 1) + if IsFolded(entries, n - 1) then [] else [Absorbed(entries, n - 1, |entries|)]
  }

  lemma OneTarget(entries: seq<Entry>, i: nat)
    requires i < |entries|
    ensures IsFolded(entries, i) <==> exists t: nat :: FoldsInto(entries, i, t)
    ensures forall t: nat :: FoldsInto(entries, i, t) ==> t < |entries| && !entries[t].keyless
  {
    var targets := Targets(entries, i);
    if |targets| == 1 {
      OnlyIsUnique(targets);
      var t :| t in targets;
      assert entries[i].keyless ==> FoldsInto(entries, i, t);
    }
    forall t: nat | FoldsInto(entries, i, t)
      ensures t < |entries| && !entries[t].keyless && IsFolded(entries, i)
    {
      assert t in targets;
    }
  }

  /** The fold: `entries` is updated in place, and the folded ones are removed at the end. */
  method Fold(entries: seq<Entry>) returns (survivors: seq<Entry>)
    ensures survivors == Survivors(entries, |entries|)
  {
    var current := entries;
    var folded: set<nat> := {};
    for i := 0 to |entries|
      invariant |current| == |entries| && forall t: nat {:trigger current[t]} :: t < |entries| ==> current[t] == Absorbed(entries, t, i)
      invariant forall j: nat :: j in folded <==> j < i && IsFolded(entries, j)
    {
      OneTarget(entries, i);
      var targets := Targets(entries, i);
      if entries[i].keyless && |targets| == 1 {
        var t :| t in targets;
        assert FoldsInto(entries, i, t);
        assert forall u: nat :: FoldsInto(entries, i, u) ==> u == t;
        current := current[t := current[t].(actors := current[t].actors + entries[i].actors, bot := current[t].bot || entries[i].bot)];
        folded := folded + {i};
      } else {
        assert forall u: nat :: !FoldsInto(entries, i, u);
      }
    }
    survivors := [];
    for i := 0 to |entries|
      invariant survivors == Survivors(entries, i)
    {
      if i !in folded {
        survivors := survivors + [current[i]];
      }
    }
  }

  /** After the fold, group `t` holds its own strings and those of the groups folded into it. */
  lemma {:induction false} AbsorbedActors(entries: seq<Entry>, t: nat, n: nat, x: string)
    requires t < |entries| && n <= |entries|
    ensures x in Absorbed(entries, t, n).actors <==>
            x in entries[t].actors || exists i: nat :: i < n && FoldsInto(entries, i, t) && x in entries[i].actors
  {
    if n > 0 {
      AbsorbedActors(entries, t, n - 1, x);
    }
  }

  lemma {:induction false} SurvivorsAreNamed(entries: seq<Entry>, n: nat)
    requires n <= |entries| && Named(entries)
    ensures Named(Survivors(entries, n))
  {
    if n > 0 {
      SurvivorsAreNamed(entries, n - 1);
    }
  }

  /** No string is lost or made up by the fold. */
  lemma FoldKeepsStrings(entries: seq<Entry>, x: string)
    ensures (exists e :: e in entries && x in e.actors) <==> (exists s :: s in Survivors(entries, |entries|) && x in s.actors)
  {
    var survivors := Survivors(entries, |entries|);
    if e :| e in entries && x in e.actors {
      var i: nat :| i < |entries| && entries[i] == e;
      OneTarget(entries, i);
      if IsFolded(entries, i) {
        var t: nat :| FoldsInto(entries, i, t);
        StoredSurvives(entries, t);
        AbsorbedActors(entries, t, |entries|, x);
        SurvivorIn(entries, |entries|, t);
        assert Absorbed(entries, t, |entries|) in survivors;
      } else {
        SurvivorIn(entries, |entries|, i);
        assert Absorbed(entries, i, |entries|) in survivors;
      }
    }
    if s :| s in survivors && x in s.actors {
      var t := SurvivorFrom(entries, |entries|, s);
      AbsorbedActors(entries, t, |entries|, x);
      assert entries[t] in entries;
      if i: nat :| i < |entries| && FoldsInto(entries, i, t) && x in entries[i].actors {
        assert entries[i] in entries;
      }
    }
  }

  lemma StoredSurvives(entries: seq<Entry>, t: nat)
    requires t < |entries| && !entries[t].keyless
    ensures !IsFolded(entries, t)
  {
  }

  lemma {:induction false} SurvivorIn(entries: seq<Entry>, n: nat, t: nat)
    requires t < n <= |entries| && !IsFolded(entries, t)
    ensures Absorbed(entries, t, |entries|) in Survivors(entries, n)
  {
    if t < n - 1 {
      SurvivorIn(entries, n - 1, t);
    }
  }

  lemma {:induction false} SurvivorFrom(entries: seq<Entry>, n: nat, s: Entry) returns (t: nat)
    requires n <= |entries| && s in Survivors(entries, n)
    ensures t < n && !IsFolded(entries, t) && s == Absorbed(entries, t, |entries|)
  {
    if s in Survivors(entries, n - 1) {
      t := SurvivorFrom(entries, n - 1, s);
    } else {
      t := n - 1;
    }
  }

  /** Stored group `t` has a string of group `i`. */
  ghost predicate Shares(entries: seq<Entry>, i: nat, t: nat) {
    i < |entries| && t < |entries| && !entries[t].keyless && exists x :: x in entries[i].actors && x in entries[t].actors
  }

  /** Keyless group `i` shares a string with stored group `t` and with no other stored group. */
  ghost predicate OnlyTarget(entries: seq<Entry>, i: nat, t: nat) {
    Shares(entries, i, t) && entries[i].keyless && forall u: nat :: Shares(entries, i, u) ==> u == t
  }

  lemma FoldsIntoOnlyTarget(entries: seq<Entry>, i: nat, t: nat)
    requires i < |entries|
    ensures FoldsInto(entries, i, t) <==> OnlyTarget(entries, i, t)
  {
    forall u: nat
      ensures u in Targets(entries, i) <==> Shares(entries, i, u)
    {
      if u < |entries| {
        assert forall x :: x in entries[u].actors * entries[i].actors <==> x in entries[i].actors && x in entries[u].actors;
      }
    }
    if Targets(entries, i) == {t} {
      assert t in Targets(entries, i);
    }
  }

  ghost predicate Stays(entries: seq<Entry>, t: nat) { t < |entries| && forall u: nat :: !OnlyTarget(entries, t, u) }

  /** Entry `t` with the strings and bot marks of the groups whose only target it is. */
  ghost predicate Absorbs(entries: seq<Entry>, t: nat, s: Entry) {
    && t < |entries|
    && s == entries[t].(actors := s.actors, bot := s.bot)
    && (forall x :: x in s.actors <==> x in entries[t].actors || exists i: nat :: OnlyTarget(entries, i, t) && x in entries[i].actors)
    && (s.bot <==> entries[t].bot || exists i: nat :: OnlyTarget(entries, i, t) && entries[i].bot)
  }

  lemma {:induction false} AbsorbedBot(entries: seq<Entry>, t: nat, n: nat)
    requires t < |entries| && n <= |entries|
    ensures Absorbed(entries, t, n).bot <==> entries[t].bot || exists i: nat :: i < n && FoldsInto(entries, i, t) && entries[i].bot
  {
    if n > 0 {
      AbsorbedBot(entries, t, n - 1);
    }
  }

  lemma AbsorbedAbsorbs(entries: seq<Entry>, t: nat)
    requires t < |entries|
    ensures Absorbs(entries, t, Absorbed(entries, t, |entries|))
  {
    hide FoldsInto, OnlyTarget, Absorbed;
    var s := Absorbed(entries, t, |entries|);
    forall i: nat | i < |entries|
      ensures FoldsInto(entries, i, t) <==> OnlyTarget(entries, i, t)
    {
      FoldsIntoOnlyTarget(entries, i, t);
    }
    TargetsAreEntries(entries, t);
    AbsorbedBot(entries, t, |entries|);
    forall x
      ensures x in s.actors <==> x in entries[t].actors || exists i: nat :: OnlyTarget(entries, i, t) && x in entries[i].actors
    {
      AbsorbedActors(entries, t, |entries|, x);
    }
  }

  lemma TargetsAreEntries(entries: seq<Entry>, t: nat)
    ensures forall i: nat :: OnlyTarget(entries, i, t) ==> i < |entries|
  {
  }

  /** The fold, in terms of the groups alone: a group is removed exactly when it is keyless and shares a
      string with one stored group only; every other group stays, with what that adds to it. */
  lemma SurvivorsSay(entries: seq<Entry>)
    ensures forall s :: s in Survivors(entries, |entries|) ==>
              exists t: nat :: Stays(entries, t) && Absorbs(entries, t, s)
    ensures forall t: nat :: Stays(entries, t) ==>
              exists s :: s in Survivors(entries, |entries|) && Absorbs(entries, t, s)
  {
    hide OnlyTarget, Absorbs, Absorbed, FoldsInto, IsFolded;
    forall s | s in Survivors(entries, |entries|)
      ensures exists t: nat :: Stays(entries, t) && Absorbs(entries, t, s)
    {
      var t := SurvivorFrom(entries, |entries|, s);
      StaysExactlyWhen(entries, t);
      AbsorbedAbsorbs(entries, t);
    }
    forall t: nat | Stays(entries, t)
      ensures exists s :: s in Survivors(entries, |entries|) && Absorbs(entries, t, s)
    {
      StaysExactlyWhen(entries, t);
      SurvivorIn(entries, |entries|, t);
      AbsorbedAbsorbs(entries, t);
    }
  }

  lemma StaysExactlyWhen(entries: seq<Entry>, t: nat)
    requires t < |entries|
    ensures IsFolded(entries, t) <==> !Stays(entries, t)
  {
    hide OnlyTarget, FoldsInto, IsFolded;
    OneTarget(entries, t);
    forall u: nat
      ensures FoldsInto(entries, t, u) <==> OnlyTarget(entries, t, u)
    {
      FoldsIntoOnlyTarget(entries, t, u);
    }
  }

  // ----- contested strings

  function Holders(entries: seq<Entry>, x: string): set<nat> {
    set i: nat | i < |entries| && x in entries[i].actors :: i
  }

  /** Declared identities that are named exactly this. */
  function DeclaredBy(entries: seq<Entry>, x: string): set<nat> {
    set i: nat | i < |entries| && x in entries[i].actors && entries[i].declared && entries[i].name == x :: i
  }

  /** The attribution rule: a string stays with its only holder, or with the only declared identity of
      that name; otherwise with nobody. */
  predicate Keeps(entries: seq<Entry>, i: nat, x: string) {
    i < |entries| && x in entries[i].actors && (Holders(entries, x) == {i} || DeclaredBy(entries, x) == {i})
  }

  function Kept(entries: seq<Entry>, i: nat): set<string>
    requires i < |entries|
  {
    set x | x in entries[i].actors && Keeps(entries, i, x)
  }

  function Strings(entries: seq<Entry>): set<string> {
    if entries == [] then {} else Strings(entries[..|entries| - 1]) + entries[|entries| - 1].actors
  }

  lemma {:induction false} StringsAreHeld(entries: seq<Entry>, x: string)
    ensures x in Strings(entries) <==> Holders(entries, x) != {}
  {
    if entries != [] {
      var front := entries[..|entries| - 1];
      StringsAreHeld(front, x);
      if x in Strings(front) {
        var i :| i in Holders(front, x);
        assert i in Holders(entries, x);
      }
      if x in entries[|entries| - 1].actors {
        assert |entries| - 1 in Holders(entries, x);
      }
      if Holders(entries, x) != {} {
        var i :| i in Holders(entries, x);
        if i < |entries| - 1 {
          assert i in Holders(front, x);
        }
      }
    }
  }

  /** Entry `i` while the strings in `unseen` have not been looked at. */
  ghost predicate SweptEntry(entries: seq<Entry>, i: nat, e: Entry, unseen: set<string>)
    requires i < |entries|
  {
    && e == entries[i].(actors := e.actors)
    && forall x :: x in e.actors <==> x in entries[i].actors && (x in unseen || Keeps(entries, i, x))
  }

  ghost predicate SweptAll(entries: seq<Entry>, swept: seq<Entry>, unseen: set<string>) {
    |swept| == |entries| && forall i: nat {:trigger swept[i]} :: i < |entries| ==> SweptEntry(entries, i, swept[i], unseen)
  }

  method Sweep(entries: seq<Entry>) returns (swept: seq<Entry>)
    ensures |swept| == |entries|
    ensures forall i: nat {:trigger swept[i]} :: i < |entries| ==> swept[i] == entries[i].(actors := Kept(entries, i))
  {
    swept := entries;
    var unseen := Strings(entries);
    forall i: nat, x | i < |entries| && x in entries[i].actors
      ensures x in unseen
    {
      StringsAreHeld(entries, x);
      assert i in Holders(entries, x);
    }
    while unseen != {}
      invariant SweptAll(entries, swept, unseen)
      decreases |unseen|
    {
      var x :| x in unseen;
      swept := SweepOne(entries, swept, x, unseen);
      unseen := unseen - {x};
    }
    forall i: nat | i < |entries|
      ensures swept[i] == entries[i].(actors := Kept(entries, i))
    {
      assert SweptEntry(entries, i, swept[i], {});
      assert swept[i].actors == Kept(entries, i);
    }
  }

  /** One contested string: every owner but the one to keep it loses it. */
  method SweepOne(entries: seq<Entry>, before: seq<Entry>, x: string, ghost unseen: set<string>) returns (swept: seq<Entry>)
    requires SweptAll(entries, before, unseen) && x in unseen
    ensures SweptAll(entries, swept, unseen - {x})
  {
    var owners, declaredBy := Holders(entries, x), DeclaredBy(entries, x);
    var keep: Option<nat> := if |declaredBy| == 1 then Some(Only(declaredBy)) else None;
    KeepDecides(entries, x, keep);
    swept := before;
    if |owners| >= 2 {
      for i := 0 to |entries|
        invariant |swept| == |entries|
        invariant forall j: nat {:trigger swept[j]} :: j < |entries| ==> SweptEntry(entries, j, swept[j], if j < i then unseen - {x} else unseen)
      {
        assert SweptEntry(entries, i, swept[i], unseen);
        if i in owners && keep != Some(i) {
          swept := swept[i := swept[i].(actors := swept[i].actors - {x})];
        }
      }
    } else {
      forall i: nat | i < |entries|
        ensures SweptEntry(entries, i, swept[i], unseen - {x})
      {
        assert SweptEntry(entries, i, before[i], unseen);
      }
    }
  }

  function Only(s: set<nat>): (n: nat)
    requires |s| == 1
    ensures s == {n}
  {
    OnlyIsUnique(s);
    var n :| n in s;
    n
  }

  lemma OnlyIsUnique(s: set<nat>)
    requires |s| == 1
    ensures exists n: nat :: n in s
    ensures forall n: nat :: n in s ==> s == {n}
  {
    var n :| n in s;
    assert |s - {n}| == 0;
    assert s == {n};
  }

  lemma KeepDecides(entries: seq<Entry>, x: string, keep: Option<nat>)
    requires keep == if |DeclaredBy(entries, x)| == 1 then Some(Only(DeclaredBy(entries, x))) else None
    ensures |Holders(entries, x)| >= 2 ==> forall i: nat :: Keeps(entries, i, x) <==> keep == Some(i)
    ensures |Holders(entries, x)| < 2 ==> forall i: nat :: Keeps(entries, i, x) <==> i in Holders(entries, x)
  {
    var holders, declaredBy := Holders(entries, x), DeclaredBy(entries, x);
    forall i: nat
      ensures |holders| >= 2 ==> (Keeps(entries, i, x) <==> keep == Some(i))
      ensures |holders| < 2 ==> (Keeps(entries, i, x) <==> i in holders)
    {
      if |holders| == 1 {
        OnlyIsUnique(holders);
        assert i in declaredBy ==> i in holders;
      }
      if declaredBy == {i} {
        assert i in declaredBy;
        assert |declaredBy| == 1;
      }
      if keep == Some(i) {
        assert declaredBy == {i};
        assert i in declaredBy;
      }
    }
  }

  // ----- publishing

  ghost predicate IsLeast(names: set<string>, order: Order, least: string) {
    least in names && forall n :: n in names ==> order(least, n)
  }

  function LeastName(names: set<string>, order: Order): (least: string)
    requires names != {} && IsTotal(order)
    ensures IsLeast(names, order, least)
  {
    HasLeast(names, order);
    var least :| least in names && forall n :: n in names ==> order(least, n);
    least
  }

  lemma {:induction false} HasLeast(names: set<string>, order: Order)
    requires names != {} && IsTotal(order)
    ensures exists least :: IsLeast(names, order, least)
  {
    hide IsTotal;
    var x :| x in names;
    if names == {x} {
      TotalAt(order, x, x, x);
      assert IsLeast(names, order, x);
    } else {
      HasLeast(names - {x}, order);
      var y :| IsLeast(names - {x}, order, y);
      TotalAt(order, x, y, y);
      TotalAt(order, x, x, x);
      forall n | n in names && order(x, y)
        ensures order(x, n)
      {
        TotalAt(order, x, y, n);
      }
      assert IsLeast(names, order, if order(x, y) then x else y);
    }
  }

  lemma TotalAt(order: Order, a: string, b: string, c: string)
    requires IsTotal(order)
    ensures order(a, b) || order(b, a)
    ensures order(a, b) && order(b, c) ==> order(a, c)
  {
  }

  function PublishedName(e: Entry, order: Order): string
    requires e.actors != {} && IsTotal(order)
  {
    if e.name in e.actors then e.name else LeastName(e.actors, order)
  }

  /** The directory over folded groups: those with a string left, under their name or, if that was
      contested, their first remaining string. */
  function Published(folded: seq<Entry>, order: Order, n: nat): seq<Identity>
    requires n <= |folded| && IsTotal(order)
  {
    if n == 0 then []
    else
      Published(folded, order, n - 1) +
      if Kept(folded, n - 1) == {} then []
      else
        var e := folded[n - 1].(actors := Kept(folded, n - 1));
        [Identity(PublishedName(e, order), e.actors, e.bot)]
  }

  /** No string belongs to two identities, and each identity's name is one of its strings. */
  ghost predicate AtMostOne(identities: seq<Identity>) {
    && (forall k :: 0 <= k < |identities| ==> identities[k].name in identities[k].actors)
    && forall j, k :: 0 <= j < k < |identities| ==> identities[j].actors !! identities[k].actors
  }

  /** From grouped entries to the directory, before it is sorted by name. */
  method BuildIdentities(entries: seq<Entry>, order: Order) returns (identities: seq<Identity>)
    requires IsTotal(order)
    ensures identities == Published(Survivors(entries, |entries|), order, |Survivors(entries, |entries|)|)
    ensures AtMostOne(identities)
  {
    var folded := Fold(entries);
    var swept := Sweep(folded);
    identities := [];
    for i := 0 to |swept|
      invariant identities == Published(folded, order, i)
    {
      if swept[i].actors != {} {
        identities := identities + [Identity(PublishedName(swept[i], order), swept[i].actors, swept[i].bot)];
      }
    }
    AttributedAtMostOnce(folded, order);
  }

  /** Where a published identity comes from. */
  lemma {:induction false} PublishedFrom(folded: seq<Entry>, order: Order, n: nat, k: nat) returns (i: nat)
    requires n <= |folded| && IsTotal(order) && k < |Published(folded, order, n)|
    ensures i < n && Kept(folded, i) != {}
    ensures var id := Published(folded, order, n)[k];
            && id.actors == Kept(folded, i) && id.bot == folded[i].bot && id.name in id.actors
            && (if folded[i].name in id.actors then id.name == folded[i].name else forall x :: x in id.actors ==> order(id.name, x))
            && k == |Published(folded, order, i)|
  {
    hide Kept;
    if k < |Published(folded, order, n - 1)| {
      i := PublishedFrom(folded, order, n - 1, k);
    } else {
      i := n - 1;
    }
  }

  lemma {:induction false} PublishedAt(folded: seq<Entry>, order: Order, n: nat, i: nat)
    requires i < n <= |folded| && IsTotal(order) && Kept(folded, i) != {}
    ensures |Published(folded, order, i)| < |Published(folded, order, n)|
    ensures Published(folded, order, n)[|Published(folded, order, i)|].actors == Kept(folded, i)
  {
    hide Kept;
    if i < n - 1 {
      PublishedAt(folded, order, n - 1, i);
    }
  }

  lemma KeptOnce(folded: seq<Entry>, i: nat, j: nat, x: string)
    requires Keeps(folded, i, x) && Keeps(folded, j, x)
    ensures i == j
  {
    assert i in Holders(folded, x) && j in Holders(folded, x);
    assert Holders(folded, x) == {i} ==> j in {i};
    assert Holders(folded, x) == {j} ==> i in {j};
  }

  /** Published identities have pairwise disjoint string sets, and each name is in its own set, so no two
      identities have the same name. */
  lemma AttributedAtMostOnce(folded: seq<Entry>, order: Order)
    requires IsTotal(order)
    ensures AtMostOne(Published(folded, order, |folded|))
    ensures var ids := Published(folded, order, |folded|); forall j, k :: 0 <= j < k < |ids| ==> ids[j].name != ids[k].name
  {
    var ids := Published(folded, order, |folded|);
    forall k | 0 <= k < |ids|
      ensures ids[k].name in ids[k].actors
    {
      var a := PublishedFrom(folded, order, |folded|, k);
    }
    forall j, k | 0 <= j < k < |ids|
      ensures ids[j].actors !! ids[k].actors && ids[j].name != ids[k].name
    {
      TwoAreDisjoint(folded, order, j, k);
    }
  }

  lemma TwoAreDisjoint(folded: seq<Entry>, order: Order, j: nat, k: nat)
    requires IsTotal(order) && j < k < |Published(folded, order, |folded|)|
    ensures var ids := Published(folded, order, |folded|); ids[j].actors !! ids[k].actors && ids[j].name != ids[k].name
  {
    var ids := Published(folded, order, |folded|);
    var a := PublishedFrom(folded, order, |folded|, j);
    var b := PublishedFrom(folded, order, |folded|, k);
    forall x | x in ids[j].actors && x in ids[k].actors
      ensures false
    {
      KeptOnce(folded, a, b, x);
    }
  }

  /** Nobody but group `i` holds the string, or the group is declared under exactly that name and no other
      holder is. */
  ghost predicate Attributed(folded: seq<Entry>, i: nat, x: string) {
    && i < |folded| && x in folded[i].actors
    && (|| (forall j: nat :: j < |folded| && x in folded[j].actors ==> j == i)
        || (&& folded[i].declared && folded[i].name == x
            && forall j: nat :: j < |folded| && x in folded[j].actors && folded[j].declared && folded[j].name == x ==> j == i))
  }

  lemma KeepsAttributed(folded: seq<Entry>, i: nat, x: string)
    ensures Keeps(folded, i, x) <==> Attributed(folded, i, x)
  {
    var holders, declaredBy := Holders(folded, x), DeclaredBy(folded, x);
    if i < |folded| && x in folded[i].actors {
      assert i in holders;
      SingletonExactlyWhen(holders, i);
      SingletonExactlyWhen(declaredBy, i);
      assert forall j: nat :: j in holders <==> j < |folded| && x in folded[j].actors;
      assert forall j: nat :: j in declaredBy <==> j < |folded| && x in folded[j].actors && folded[j].declared && folded[j].name == x;
    }
  }

  lemma SingletonExactlyWhen(s: set<nat>, i: nat)
    ensures s == {i} <==> i in s && forall j: nat :: j in s ==> j == i
  {
  }

  /** What is published for group `i`: the strings attributed to it, its bot mark, and its own name or, if
      that was lost, its first string in display order. */
  ghost predicate Publishes(folded: seq<Entry>, i: nat, order: Order, id: Identity) {
    && i < |folded|
    && (forall x :: x in id.actors <==> Attributed(folded, i, x))
    && id.bot == folded[i].bot
    && id.name in id.actors
    && (if folded[i].name in id.actors then id.name == folded[i].name else forall x :: x in id.actors ==> order(id.name, x))
  }

  /** The published identities, in terms of the folded groups alone: one for each group that some string is
      attributed to, and no others. */
  lemma PublishedExactlyWhen(folded: seq<Entry>, order: Order)
    requires IsTotal(order)
    ensures forall id :: id in Published(folded, order, |folded|) ==> exists i: nat :: Publishes(folded, i, order, id)
    ensures forall i: nat, x :: Attributed(folded, i, x) ==>
              exists id :: id in Published(folded, order, |folded|) && x in id.actors && Publishes(folded, i, order, id)
  {
    hide Publishes, Attributed, Keeps, IsTotal;
    var ids := Published(folded, order, |folded|);
    forall id | id in ids
      ensures exists i: nat :: Publishes(folded, i, order, id)
    {
      var k: nat :| k < |ids| && ids[k] == id;
      var i := PublishedSays(folded, order, k);
    }
    forall i: nat, x | Attributed(folded, i, x)
      ensures exists id :: id in ids && x in id.actors && Publishes(folded, i, order, id)
    {
      KeepsAttributed(folded, i, x);
      KeptIs(folded, i, x);
      PublishedAt(folded, order, |folded|, i);
      var k := |Published(folded, order, i)|;
      var j := PublishedSays(folded, order, k);
      SameLengthSameGroup(folded, order, i, j);
      assert ids[k] in ids;
    }
  }

  lemma KeptIs(folded: seq<Entry>, i: nat, x: string)
    requires Keeps(folded, i, x)
    ensures i < |folded| && x in Kept(folded, i)
  {
  }

  lemma PublishedSays(folded: seq<Entry>, order: Order, k: nat) returns (i: nat)
    requires IsTotal(order) && k < |Published(folded, order, |folded|)|
    ensures i < |folded| && Kept(folded, i) != {} && Publishes(folded, i, order, Published(folded, order, |folded|)[k])
    ensures k == |Published(folded, order, i)| && Published(folded, order, |folded|)[k].actors == Kept(folded, i)
  {
    hide Keeps, Attributed, IsTotal;
    i := PublishedFrom(folded, order, |folded|, k);
    forall x
      ensures x in Kept(folded, i) <==> Attributed(folded, i, x)
    {
      KeepsAttributed(folded, i, x);
      AttributedHolds(folded, i, x);
    }
  }

  lemma AttributedHolds(folded: seq<Entry>, i: nat, x: string)
    ensures Attributed(folded, i, x) ==> i < |folded| && x in folded[i].actors
  {
  }

  lemma SameLengthSameGroup(folded: seq<Entry>, order: Order, i: nat, j: nat)
    requires IsTotal(order) && i < |folded| && j < |folded| && Kept(folded, i) != {} && Kept(folded, j) != {}
    requires |Published(folded, order, i)| == |Published(folded, order, j)|
    ensures i == j
  {
    hide Kept, IsTotal;
    if i < j {
      PublishedAt(folded, order, j, i);
    } else if j < i {
      PublishedAt(folded, order, i, j);
    }
  }

  /** In particular every string held by exactly one folded group is published under it. */
  lemma SoleHolderIsPublished(folded: seq<Entry>, order: Order, x: string, i: nat)
    requires IsTotal(order) && i < |folded| && x in folded[i].actors
    requires forall j: nat :: j < |folded| && x in folded[j].actors ==> j == i
    ensures exists id :: id in Published(folded, order, |folded|) && x in id.actors && Publishes(folded, i, order, id)
  {
    hide Publishes;
    PublishedExactlyWhen(folded, order);
    assert Attributed(folded, i, x);
  }
}
