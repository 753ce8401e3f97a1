/** The focus chains: per desktop, and by most recent use. The last element of a chain is the
    one to be focused first. */
module FocusChains {
  import opened Options

  /** `MakeFirstMinimized` is another name for `MakeFirst`. */
  datatype Change = MakeFirst | MakeLast | Update

  const ON_ALL_DESKTOPS := -1

  /** What the chains ask a window. */
  datatype View = View(wantsTabFocus: bool, desktop: int) {
    predicate IsOnDesktop(d: nat) { desktop == d || desktop == ON_ALL_DESKTOPS }
  }

  datatype Chains<T> = Chains(desktops: map<nat, seq<T>>, recent: seq<T>, active: Option<T>, current: nat)

  // ---------------------------------------------------------------- one chain

  predicate Distinct<T(==)>(s: seq<T>) {
    forall i, j | 0 <= i < j < |s| :: s[i] != s[j]
  }

  function RemoveAll<T(==)>(s: seq<T>, c: T): (r: seq<T>)
    ensures c !in r
    ensures forall x | x in r :: x in s && x != c
    ensures forall x | x in s && x != c :: x in r
    ensures Distinct(s) ==> Distinct(r)
    ensures c !in s ==> r == s
  {
    if s == [] then []
    else
      var before := RemoveAll(s[..|s| - 1], c);
      assert Distinct(s) ==> s[|s| - 1] !in s[..|s| - 1];
      if s[|s| - 1] == c then before else before + [s[|s| - 1]]
  }

  /** `QList::insert`: a position before the beginning prepends. */
  function InsertAt<T>(s: seq<T>, i: int, c: T): (r: seq<T>)
    requires i <= |s|
    ensures c in r && forall x | x in s :: x in r
    ensures forall x | x in r :: x in s || x == c
  {
    if i <= 0 then [c] + s else s[..i] + [c] + s[i..]
  }

  lemma InsertKeepsDistinct<T>(s: seq<T>, i: int, c: T)
    requires i <= |s| && Distinct(s) && c !in s
    ensures Distinct(InsertAt(s, i, c))
  {
  }

  function IndexOf<T(==)>(s: seq<T>, c: T): (i: int)
    ensures -1 <= i < |s|
    ensures i >= 0 ==> s[i] == c
    ensures i == -1 <==> c !in s
  {
    if s == [] then -1
    else if s[0] == c then 0
    else
      var i := IndexOf(s[1..], c);
      if i == -1 then -1 else i + 1
  }

  /** The position after the last minimized window, or zero. */
  function AfterLastMinimized<T(==)>(s: seq<T>, minimized: set<T>): (i: nat)
    ensures i <= |s|
    ensures forall k | i <= k < |s| :: s[k] !in minimized
    ensures i > 0 ==> s[i - 1] in minimized
  {
    if s == [] then 0
    else if s[|s| - 1] in minimized then |s|
    else AfterLastMinimized(s[..|s| - 1], minimized)
  }

  function MadeFirst<T(==)>(s: seq<T>, c: T, minimized: set<T>): seq<T> {
    var r := RemoveAll(s, c);
    if c in minimized then InsertAt(r, AfterLastMinimized(r, minimized), c) else r + [c]
  }

  function MadeLast<T(==)>(s: seq<T>, c: T): seq<T> {
    [c] + RemoveAll(s, c)
  }

  /** A window that is not there yet goes just behind the active one, if that is first. */
  function Inserted<T(==)>(s: seq<T>, c: T, active: Option<T>): seq<T> {
    if c in s then s
    else if active.Some? && active.value != c && s != [] && s[|s| - 1] == active.value
    then InsertAt(s, |s| - 1, c)
    else s + [c]
  }

  function Changed<T(==)>(s: seq<T>, c: T, change: Change, minimized: set<T>, active: Option<T>): seq<T> {
    match change
    case MakeFirst => MadeFirst(s, c, minimized)
    case MakeLast => MadeLast(s, c)
    case Update => Inserted(s, c, active)
  }

  /** `r` is `s` with `c` in it, once. */
  predicate With<T(==)>(s: seq<T>, c: T, r: seq<T>) {
    Distinct(r) && c in r && (forall x | x in r :: x in s || x == c) && forall x | x in s :: x in r
  }

  lemma MadeFirstKeepsDistinct<T>(s: seq<T>, c: T, minimized: set<T>)
    requires Distinct(s)
    ensures With(s, c, MadeFirst(s, c, minimized))
  {
    var r := RemoveAll(s, c);
    InsertKeepsDistinct(r, AfterLastMinimized(r, minimized), c);
  }

  lemma InsertedKeepsDistinct<T>(s: seq<T>, c: T, active: Option<T>)
    requires Distinct(s)
    ensures With(s, c, Inserted(s, c, active))
  {
    if c !in s && s != [] {
      InsertKeepsDistinct(s, |s| - 1, c);
    }
  }

  lemma ChangedKeepsDistinct<T>(s: seq<T>, c: T, change: Change, minimized: set<T>, active: Option<T>)
    requires Distinct(s)
    ensures With(s, c, Changed(s, c, change, minimized, active))
  {
    match change
    case MakeFirst => MadeFirstKeepsDistinct(s, c, minimized);
    case MakeLast =>
    case Update => InsertedKeepsDistinct(s, c, active);
  }

  /** The position of the last window of the same application as `reference`, or -1. */
  function LastOfSameApplication<T(==)>(s: seq<T>, reference: T, same: (T, T) -> bool): (i: int)
    ensures -1 <= i < |s|
    ensures i >= 0 ==> same(reference, s[i])
    ensures forall k | i < k < |s| :: !same(reference, s[k])
  {
    if s == [] then -1
    else if same(reference, s[|s| - 1]) then |s| - 1
    else LastOfSameApplication(s[..|s| - 1], reference, same)
  }

  function MovedAfter<T(==)>(s: seq<T>, c: T, reference: T, same: (T, T) -> bool): seq<T> {
    if reference !in s then s
    else
      var r := RemoveAll(s, c);
      if same(reference, c) then InsertAt(r, IndexOf(r, reference), c)
      else
        var i := LastOfSameApplication(r, reference, same);
        if i == -1 then r else InsertAt(r, i, c)
  }

  /** Being of the same application is reflexive, so a moved window never drops out of a chain. */
  lemma MovedAfterKeepsDistinct<T>(s: seq<T>, c: T, reference: T, same: (T, T) -> bool)
    requires Distinct(s) && same(reference, reference)
    ensures
      var r := MovedAfter(s, c, reference, same);
      && Distinct(r)
      && (forall x :: x in r <==> x in s || (x == c && reference in s))
  {
    if reference in s {
      var r := RemoveAll(s, c);
      if same(reference, c) {
        InsertKeepsDistinct(r, IndexOf(r, reference), c);
      } else {
        assert reference in r;
        var i := LastOfSameApplication(r, reference, same);
        assert i >= 0;
        InsertKeepsDistinct(r, i, c);
      }
    }
  }

  // ---------------------------------------------------------------- where a window goes

  lemma {:induction false} RemoveLast<T>(s: seq<T>, c: T)
    requires s != []
    ensures
      var n := |s| - 1;
      RemoveAll(s, c) == RemoveAll(s[..n], c) + (if s[n] == c then [] else [s[n]])
  {
  }

  lemma {:induction false} RemoveConcat<T>(a: seq<T>, b: seq<T>, c: T)
    ensures RemoveAll(a + b, c) == RemoveAll(a, c) + RemoveAll(b, c)
    decreases |b|
  {
    if b == [] {
      assert a + b == a;
    } else {
      var n, all := |b| - 1, a + b;
      RemoveConcat(a, b[..n], c);
      assert all[..|all| - 1] == a + b[..n] && all[|all| - 1] == b[n];
      var last := if b[n] == c then [] else [b[n]];
      RemoveLast(b, c);
      RemoveLast(all, c);
      assert RemoveAll(a, c) + RemoveAll(b[..n], c) + last == RemoveAll(a, c) + (RemoveAll(b[..n], c) + last);
    }
  }

  /** Taking an inserted window out again gives the chain back. */
  lemma RemoveInserted<T>(s: seq<T>, i: int, c: T)
    requires i <= |s| && c !in s
    ensures RemoveAll(InsertAt(s, i, c), c) == s
  {
    if i <= 0 {
      RemoveConcat([c], s, c);
    } else {
      assert c !in s[..i] && c !in s[i..];
      RemoveBetween(s[..i], s[i..], c);
      assert s[..i] + s[i..] == s;
    }
  }

  lemma RemoveBetween<T>(a: seq<T>, b: seq<T>, c: T)
    requires c !in a && c !in b
    ensures RemoveAll(a + [c] + b, c) == a + b
  {
    RemoveConcat(a + [c], b, c);
    RemoveConcat(a, [c], c);
    assert RemoveAll([c], c) == [];
    assert a + [] == a;
  }

  /** No change moves any other window. */
  lemma ChangedKeepsOrder<T>(s: seq<T>, c: T, change: Change, minimized: set<T>, active: Option<T>)
    ensures RemoveAll(Changed(s, c, change, minimized, active), c) == RemoveAll(s, c)
  {
    var r := RemoveAll(s, c);
    match change
    case MakeFirst =>
      RemoveAppended(r, c);
      RemoveInserted(r, AfterLastMinimized(r, minimized), c);
    case MakeLast =>
      RemoveConcat([c], r, c);
    case Update =>
      if c !in s {
        RemoveAppended(s, c);
        RemoveInserted(s, |s| - 1, c);
      }
  }

  lemma RemoveAppended<T>(s: seq<T>, c: T)
    requires c !in s
    ensures RemoveAll(s + [c], c) == s
  {
    RemoveConcat(s, [c], c);
  }

  lemma MovedAfterKeepsOrder<T>(s: seq<T>, c: T, reference: T, same: (T, T) -> bool)
    ensures RemoveAll(MovedAfter(s, c, reference, same), c) == RemoveAll(s, c)
  {
    var r := RemoveAll(s, c);
    RemoveInserted(r, IndexOf(r, reference), c);
    RemoveInserted(r, LastOfSameApplication(r, reference, same), c);
  }

  /** Before and behind an inserted window the chain is as before. */
  lemma InsertedPosition<T>(s: seq<T>, i: nat, c: T)
    requires i <= |s|
    ensures |InsertAt(s, i, c)| == |s| + 1 && InsertAt(s, i, c)[i] == c
    ensures forall j | 0 <= j < i :: InsertAt(s, i, c)[j] == s[j]
    ensures forall j | i < j <= |s| :: InsertAt(s, i, c)[j] == s[j - 1]
  {
  }

  /** A window that is made first is focused first, unless it is minimized: then exactly the
      windows that are not minimized and beyond every minimized one come before it. */
  lemma MadeFirstPosition<T>(s: seq<T>, c: T, minimized: set<T>) returns (k: nat)
    ensures
      var r := MadeFirst(s, c, minimized);
      && k < |r| && r[k] == c
      && (c !in minimized ==> k == |r| - 1)
      && (c in minimized ==> (forall j | k < j < |r| :: r[j] !in minimized) && (k > 0 ==> r[k - 1] in minimized))
  {
    var rest := RemoveAll(s, c);
    if c in minimized {
      k := AfterLastMinimized(rest, minimized);
      InsertedPosition(rest, k, c);
    } else {
      k := |rest|;
    }
  }

  /** A window that is made last is focused last. */
  lemma MadeLastPosition<T>(s: seq<T>, c: T)
    ensures MadeLast(s, c) != [] && MadeLast(s, c)[0] == c
    ensures |MadeLast(s, c)| == |RemoveAll(s, c)| + 1
  {
  }

  /** A newcomer is focused first, or right after the active window if that is first. */
  lemma NewcomerPosition<T>(s: seq<T>, c: T, active: Option<T>)
    ensures c in s ==> Inserted(s, c, active) == s
    ensures c !in s ==>
              var r := Inserted(s, c, active);
              && |r| == |s| + 1
              && if s != [] && active == Some(s[|s| - 1])
                 then r[|s|] == s[|s| - 1] && r[|s| - 1] == c
                 else r[|s|] == c
  {
    if c !in s && s != [] && active == Some(s[|s| - 1]) {
      assert s[|s| - 1] in s;
      InsertedPosition(s, |s| - 1, c);
    }
  }

  /** In focusing order the moved window comes right after the reference, if that is of the same
      application, and otherwise right after the first window of the reference's application. */
  lemma MovedAfterPosition<T>(s: seq<T>, c: T, reference: T, same: (T, T) -> bool) returns (k: nat)
    requires reference in s && reference != c && same(reference, reference)
    ensures
      var r := MovedAfter(s, c, reference, same);
      && k + 1 < |r| && r[k] == c && same(reference, r[k + 1])
      && (same(reference, c) ==> r[k + 1] == reference)
      && (!same(reference, c) ==> forall j | k + 1 < j < |r| :: !same(reference, r[j]))
  {
    var rest := RemoveAll(s, c);
    assert reference in rest;
    var i := if same(reference, c) then IndexOf(rest, reference) else LastOfSameApplication(rest, reference, same);
    LastIsFound(rest, reference, same);
    InsertedPosition(rest, i, c);
    k := i;
  }

  /** A chain that does not know the reference is left alone, and one that holds no other window of its application
      loses the moved one. */
  lemma MovedAfterNowhere<T>(s: seq<T>, c: T, reference: T, same: (T, T) -> bool)
    ensures reference !in s ==> MovedAfter(s, c, reference, same) == s
    ensures reference in s && !same(reference, c) && (forall x | x in s && x != c :: !same(reference, x)) ==>
              MovedAfter(s, c, reference, same) == RemoveAll(s, c)
  {
    var r := RemoveAll(s, c);
    if reference in s && !same(reference, c) && forall x | x in s && x != c :: !same(reference, x) {
      LastIsNowhere(r, reference, same);
    }
  }

  lemma {:induction false} LastIsNowhere<T>(s: seq<T>, reference: T, same: (T, T) -> bool)
    requires forall x | x in s :: !same(reference, x)
    ensures LastOfSameApplication(s, reference, same) == -1
    decreases |s|
  {
    if s != [] {
      assert s[|s| - 1] in s;
      LastIsNowhere(s[..|s| - 1], reference, same);
    }
  }

  lemma {:induction false} LastIsFound<T>(s: seq<T>, reference: T, same: (T, T) -> bool)
    requires reference in s && same(reference, reference)
    ensures LastOfSameApplication(s, reference, same) >= 0
  {
    var k :| 0 <= k < |s| && s[k] == reference;
  }

  // ---------------------------------------------------------------- all chains

  function Remove<T(==)>(f: Chains<T>, c: T): Chains<T> {
    f.(desktops := map k | k in f.desktops :: RemoveAll(f.desktops[k], c), recent := RemoveAll(f.recent, c))
  }

  /** The numbers after `lo` up to `hi`. */
  function After(lo: nat, hi: nat): (r: set<nat>)
    ensures forall k :: k in r <==> lo < k <= hi
  {
    if hi <= lo then {} else After(lo, hi - 1) + {hi}
  }

  function Resize<T>(f: Chains<T>, previousSize: nat, newSize: nat): Chains<T> {
    f.(desktops := Grown(f.desktops, previousSize, newSize) - After(newSize, previousSize))
  }

  function Grown<T>(m: map<nat, seq<T>>, previousSize: nat, newSize: nat): map<nat, seq<T>> {
    m + map k | k in After(previousSize, newSize) :: []
  }

  lemma GrownByNone<T>(m: map<nat, seq<T>>, previousSize: nat, n: nat)
    ensures Grown(m, previousSize, previousSize) == m
    ensures n <= previousSize ==> Grown(m, previousSize, n) == m
  {
  }

  lemma GrownByOne<T>(m: map<nat, seq<T>>, previousSize: nat, n: nat)
    requires n > previousSize
    ensures Grown(m, previousSize, n - 1)[n := []] == Grown(m, previousSize, n)
  {
    assert After(previousSize, n) == After(previousSize, n - 1) + {n};
  }

  /** The chain of desktop `d` after an update. */
  function UpdatedChain<T(==)>(d: nat, s: seq<T>, c: T, view: View, change: Change, minimized: set<T>,
                               active: Option<T>, current: nat): seq<T> {
    if view.desktop == ON_ALL_DESKTOPS then
      // making first or last works on the current desktop only
      Changed(s, c, if d == current then change else Update, minimized, active)
    else if view.IsOnDesktop(d) then Changed(s, c, change, minimized, active)
    else RemoveAll(s, c)
  }

  function Updated<T(==)>(f: Chains<T>, c: T, view: View, change: Change, minimized: set<T>): Chains<T> {
    if !view.wantsTabFocus then Remove(f, c)
    else
      f.(desktops := map k | k in f.desktops :: UpdatedChain(k, f.desktops[k], c, view, change, minimized, f.active, f.current),
         recent := Changed(f.recent, c, change, minimized, f.active))
  }

  function MovedChain<T(==)>(d: nat, s: seq<T>, c: T, view: View, reference: T, same: (T, T) -> bool): seq<T> {
    if view.IsOnDesktop(d) then MovedAfter(s, c, reference, same) else s
  }

  function MovedAfterClient<T(==)>(f: Chains<T>, c: T, view: View, reference: T, same: (T, T) -> bool): Chains<T> {
    if !view.wantsTabFocus then f
    else
      f.(desktops := map k | k in f.desktops :: MovedChain(k, f.desktops[k], c, view, reference, same),
         recent := MovedAfter(f.recent, c, reference, same))
  }

  // ---------------------------------------------------------------- the run invariant

  /** No chain holds a window twice, and every window of a desktop chain was used recently. */
  predicate Inv<T(==)>(f: Chains<T>) {
    && Distinct(f.recent)
    && forall d | d in f.desktops :: Distinct(f.desktops[d]) && forall c | c in f.desktops[d] :: c in f.recent
  }

  datatype Op<!T> =
    | DoUpdate(c: T, view: View, change: Change, minimized: set<T>)
    | DoRemove(c: T)
    | DoResize(previousSize: nat, newSize: nat)
    | DoMoveAfter(c: T, view: View, reference: T, same: (T, T) -> bool)
    | SetActive(active: Option<T>)
    | SetCurrent(current: nat)

  function Apply<T(==)>(f: Chains<T>, op: Op<T>): Chains<T> {
    match op
    case DoUpdate(c, view, change, minimized) => Updated(f, c, view, change, minimized)
    case DoRemove(c) => Remove(f, c)
    case DoResize(p, n) => Resize(f, p, n)
    case DoMoveAfter(c, view, reference, same) => MovedAfterClient(f, c, view, reference, same)
    case SetActive(a) => f.(active := a)
    case SetCurrent(d) => f.(current := d)
  }

  function Run<T(==)>(f: Chains<T>, ops: seq<Op<T>>): Chains<T> {
    if ops == [] then f else Apply(Run(f, ops[..|ops| - 1]), ops[|ops| - 1])
  }

  predicate SameIsReflexive<T>(op: Op<T>) {
    op.DoMoveAfter? ==> op.same(op.reference, op.reference)
  }

  lemma UpdatedChainIsDistinct<T>(d: nat, s: seq<T>, c: T, view: View, change: Change, minimized: set<T>,
                                  active: Option<T>, current: nat)
    requires Distinct(s)
    ensures
      var r := UpdatedChain(d, s, c, view, change, minimized, active, current);
      Distinct(r) && forall x | x in r :: x in s || x == c
  {
    ChangedKeepsDistinct(s, c, change, minimized, active);
    ChangedKeepsDistinct(s, c, Update, minimized, active);
  }

  lemma UpdatedKeepsInv<T>(f: Chains<T>, c: T, view: View, change: Change, minimized: set<T>)
    requires Inv(f)
    ensures Inv(Updated(f, c, view, change, minimized))
  {
    if view.wantsTabFocus {
      ChangedKeepsDistinct(f.recent, c, change, minimized, f.active);
      var g := Updated(f, c, view, change, minimized);
      forall d | d in f.desktops ensures Distinct(g.desktops[d]) && forall x | x in g.desktops[d] :: x in g.recent {
        UpdatedChainIsDistinct(d, f.desktops[d], c, view, change, minimized, f.active, f.current);
      }
    }
  }

  lemma MovedAfterClientKeepsInv<T>(f: Chains<T>, c: T, view: View, reference: T, same: (T, T) -> bool)
    requires Inv(f) && same(reference, reference)
    ensures Inv(MovedAfterClient(f, c, view, reference, same))
  {
    MovedAfterKeepsDistinct(f.recent, c, reference, same);
    forall d | d in f.desktops
      ensures
        var s := MovedAfter(f.desktops[d], c, reference, same);
        Distinct(s) && forall x | x in s :: x in f.desktops[d] || (x == c && reference in f.desktops[d])
    {
      MovedAfterKeepsDistinct(f.desktops[d], c, reference, same);
    }
  }

  lemma {:induction false} RunKeepsInv<T>(f: Chains<T>, ops: seq<Op<T>>)
    requires Inv(f)
    requires forall op | op in ops :: SameIsReflexive(op)
    ensures Inv(Run(f, ops))
    decreases |ops|
  {
    if ops != [] {
      var before := ops[..|ops| - 1];
      RunKeepsInv(f, before);
      var g := Run(f, before);
      match ops[|ops| - 1]
      case DoUpdate(c, view, change, minimized) => UpdatedKeepsInv(g, c, view, change, minimized);
      case DoRemove(c) =>
      case DoResize(p, n) =>
      case DoMoveAfter(c, view, reference, same) =>
        assert SameIsReflexive(ops[|ops| - 1]);
        MovedAfterClientKeepsInv(g, c, view, reference, same);
      case SetActive(a) =>
      case SetCurrent(d) =>
    }
  }

  /** After an update a window that wants focus is in the chain of its own desktop and in no
      other, and in the recent chain; nothing else enters or leaves a chain. */
  lemma UpdatePutsOnOneDesktop<T>(f: Chains<T>, c: T, view: View, change: Change, minimized: set<T>)
    requires view.desktop != ON_ALL_DESKTOPS
    ensures
      var g := Updated(f, c, view, change, minimized);
      && g.desktops.Keys == f.desktops.Keys
      && (c in g.recent <==> view.wantsTabFocus)
      && (forall d | d in g.desktops :: c in g.desktops[d] <==> view.wantsTabFocus && d == view.desktop)
      && (forall d | d in g.desktops :: forall x | x in g.desktops[d] :: x == c || x in f.desktops[d])
      && (forall d | d in g.desktops :: forall x | x in f.desktops[d] :: x == c || x in g.desktops[d])
  {
    var g := Updated(f, c, view, change, minimized);
    forall d | d in g.desktops
      ensures c in g.desktops[d] <==> view.wantsTabFocus && d == view.desktop
      ensures forall x | x in g.desktops[d] :: x == c || x in f.desktops[d]
      ensures forall x | x in f.desktops[d] :: x == c || x in g.desktops[d]
    {
    }
  }

  /** A window on all desktops is in every chain; a change of its place is for the current desktop alone,
      and where it was already nothing changes. */
  lemma UpdateOnAllDesktops<T>(f: Chains<T>, c: T, view: View, change: Change, minimized: set<T>)
    requires view.desktop == ON_ALL_DESKTOPS && view.wantsTabFocus
    ensures
      var g := Updated(f, c, view, change, minimized);
      && g.desktops.Keys == f.desktops.Keys
      && (f.current in f.desktops ==> g.desktops[f.current] == Changed(f.desktops[f.current], c, change, minimized, f.active))
      && (forall d | d in f.desktops && d != f.current ::
            g.desktops[d] == if c in f.desktops[d] then f.desktops[d] else Inserted(f.desktops[d], c, f.active))
      && forall d | d in f.desktops :: c in g.desktops[d]
  {
    forall d | d in f.desktops ensures c in Updated(f, c, view, change, minimized).desktops[d] {
      ChangedHolds(f.desktops[d], c, change, minimized, f.active);
    }
    assert f.current in f.desktops ==>
        Updated(f, c, view, change, minimized).desktops[f.current]
        == UpdatedChain(f.current, f.desktops[f.current], c, view, change, minimized, f.active, f.current);
  }

  lemma ChangedHolds<T>(s: seq<T>, c: T, change: Change, minimized: set<T>, active: Option<T>)
    ensures c in Changed(s, c, change, minimized, active) && c in Inserted(s, c, active)
  {
  }

  /** A move after another window happens on the desktops of the moved window that know the other one,
      and in the recent chain. */
  lemma MoveStaysOnDesktops<T>(f: Chains<T>, c: T, view: View, reference: T, same: (T, T) -> bool)
    ensures
      var g := MovedAfterClient(f, c, view, reference, same);
      && g.desktops.Keys == f.desktops.Keys
      && (!view.wantsTabFocus ==> g == f)
      && (view.wantsTabFocus ==> g.recent == MovedAfter(f.recent, c, reference, same))
      && forall d | d in f.desktops ::
           && RemoveAll(g.desktops[d], c) == RemoveAll(f.desktops[d], c)
           && (reference !in f.desktops[d] || (view.desktop != d && view.desktop != ON_ALL_DESKTOPS) ==>
                 g.desktops[d] == f.desktops[d])
           && (view.wantsTabFocus && (view.desktop == d || view.desktop == ON_ALL_DESKTOPS) ==>
                 g.desktops[d] == MovedAfter(f.desktops[d], c, reference, same))
  {
    forall d | d in f.desktops
      ensures RemoveAll(MovedAfterClient(f, c, view, reference, same).desktops[d], c) == RemoveAll(f.desktops[d], c)
    {
      MovedAfterKeepsOrder(f.desktops[d], c, reference, same);
    }
  }

  /** When the number of desktops changes, the chains of those that stay are kept and new ones are empty. */
  lemma ResizeKeepsChains<T>(f: Chains<T>, previousSize: nat, newSize: nat)
    requires forall d: nat :: d in f.desktops <==> 1 <= d <= previousSize
    ensures
      var g := Resize(f, previousSize, newSize);
      && g.recent == f.recent
      && (forall d: nat :: d in g.desktops <==> 1 <= d <= newSize)
      && (forall d: nat | 1 <= d <= newSize :: g.desktops[d] == if d <= previousSize then f.desktops[d] else [])
  {
  }

  // ---------------------------------------------------------------- walking the recent chain

  /** `nextMostRecentlyUsed`, for a chain that is not empty. */
  function Next<T(==)>(s: seq<T>, reference: T): T
    requires s != []
  {
    var index := IndexOf(s, reference);
    if index == -1 then s[0] else if index == 0 then s[|s| - 1] else s[index - 1]
  }

  function Walk<T(==)>(s: seq<T>, c: T, steps: nat): T
    requires s != []
  {
    if steps == 0 then c else Next(s, Walk(s, c, steps - 1))
  }

  lemma {:induction false} DistinctIndex<T>(s: seq<T>, i: nat)
    requires Distinct(s) && i < |s|
    ensures IndexOf(s, s[i]) == i
  {
  }

  /** `steps` positions down from `i`, around the end. */
  function Position(i: nat, steps: nat, n: nat): nat
    requires i < n && steps <= n
  {
    if steps <= i then i - steps else i - steps + n
  }

  /** The walk goes down through the chain and around. */
  lemma {:induction false} WalkPosition<T>(s: seq<T>, i: nat, steps: nat)
    requires Distinct(s) && i < |s| && steps <= |s|
    ensures Walk(s, s[i], steps) == s[Position(i, steps, |s|)]
    decreases steps
  {
    if steps > 0 {
      WalkPosition(s, i, steps - 1);
      DistinctIndex(s, Position(i, steps - 1, |s|));
    }
  }

  lemma WalkReaches<T>(s: seq<T>, c: T, x: T) returns (k: nat)
    requires Distinct(s) && c in s && x in s
    ensures k < |s| && Walk(s, c, k) == x
  {
    var i, p := IndexOf(s, c), IndexOf(s, x);
    k := if p <= i then i - p else i - p + |s|;
    WalkPosition(s, i, k);
  }

  lemma WalkNeverRepeats<T>(s: seq<T>, c: T, j: nat, k: nat)
    requires Distinct(s) && c in s && j < k < |s|
    ensures Walk(s, c, j) != Walk(s, c, k)
  {
    var i := IndexOf(s, c);
    WalkPosition(s, i, j);
    WalkPosition(s, i, k);
    DistinctIndex(s, Position(i, j, |s|));
    DistinctIndex(s, Position(i, k, |s|));
  }

  /** The windows met by `steps` calls of `nextMostRecentlyUsed`, beginning with `c` itself. */
  function Tour<T(==)>(s: seq<T>, c: T, steps: nat): (r: seq<T>)
    requires s != []
    ensures |r| == steps && forall k | 0 <= k < steps :: r[k] == Walk(s, c, k)
  {
    if steps == 0 then [] else Tour(s, c, steps - 1) + [Walk(s, c, steps - 1)]
  }

  lemma TourIsDistinct<T>(s: seq<T>, c: T)
    requires Distinct(s) && c in s
    ensures Distinct(Tour(s, c, |s|))
  {
    var tour := Tour(s, c, |s|);
    forall j, k | 0 <= j < k < |tour| ensures tour[j] != tour[k] {
      WalkNeverRepeats(s, c, j, k);
    }
  }

  /** Repeating `nextMostRecentlyUsed` from any window of the chain visits every window exactly
      once and then returns to the start. */
  lemma TourVisitsEachOnce<T>(s: seq<T>, c: T)
    requires Distinct(s) && c in s
    ensures Distinct(Tour(s, c, |s|))
    ensures forall x | x in s :: x in Tour(s, c, |s|)
    ensures Walk(s, c, |s|) == c
  {
    TourIsDistinct(s, c);
    WalkPosition(s, IndexOf(s, c), |s|);
    forall x | x in s ensures x in Tour(s, c, |s|) {
      var k := WalkReaches(s, c, x);
      assert Tour(s, c, |s|)[k] == x;
    }
  }

  // ---------------------------------------------------------------- the object

  class FocusChain<T(==)> {
    var desktopFocusChains: map<nat, seq<T>>
    var mostRecentlyUsed: seq<T>
    var activeClient: Option<T>
    var currentDesktop: nat

    ghost function State(): Chains<T>
      reads this
    {
      Chains(desktopFocusChains, mostRecentlyUsed, activeClient, currentDesktop)
    }

    constructor ()
      ensures State() == Chains(map[], [], None, 0) && Inv(State())
    {
      desktopFocusChains, mostRecentlyUsed, activeClient, currentDesktop := map[], [], None, 0;
    }

    method RemoveClient(client: T)
      modifies this
      ensures State() == Remove(old(State()), client)
      ensures old(Inv(State())) ==> Inv(State())
    {
      var keys := desktopFocusChains.Keys;
      ghost var before := desktopFocusChains;
      while keys != {}
        invariant keys <= before.Keys && desktopFocusChains.Keys == before.Keys
        invariant forall k | k in before ::
                    desktopFocusChains[k] == if k in keys then before[k] else RemoveAll(before[k], client)
        invariant mostRecentlyUsed == old(mostRecentlyUsed)
        invariant activeClient == old(activeClient) && currentDesktop == old(currentDesktop)
      {
        var k :| k in keys;
        desktopFocusChains := desktopFocusChains[k := RemoveAll(desktopFocusChains[k], client)];
        keys := keys - {k};
      }
      mostRecentlyUsed := RemoveAll(mostRecentlyUsed, client);
      assert desktopFocusChains == Remove(old(State()), client).desktops;
    }

    method ResizeChains(previousSize: nat, newSize: nat)
      modifies this
      ensures State() == Resize(old(State()), previousSize, newSize)
      ensures old(Inv(State())) ==> Inv(State())
    {
      AddChains(previousSize, newSize);
      DropChains(previousSize, newSize);
    }

    method AddChains(previousSize: nat, newSize: nat)
      modifies `desktopFocusChains
      ensures desktopFocusChains == Grown(old(desktopFocusChains), previousSize, newSize)
    {
      GrownByNone(desktopFocusChains, previousSize, newSize);
      var i := previousSize + 1;
      while i <= newSize
        invariant previousSize < i && (i <= newSize + 1 || newSize <= previousSize)
        invariant newSize > previousSize ==> desktopFocusChains == Grown(old(desktopFocusChains), previousSize, i - 1)
        invariant newSize <= previousSize ==> desktopFocusChains == old(desktopFocusChains)
      {
        desktopFocusChains := desktopFocusChains[i := []];
        GrownByOne(old(desktopFocusChains), previousSize, i);
        i := i + 1;
      }
    }

    method DropChains(previousSize: nat, newSize: nat)
      modifies `desktopFocusChains
      ensures desktopFocusChains == old(desktopFocusChains) - After(newSize, previousSize)
    {
      var i: nat := previousSize;
      while i > newSize
        invariant if previousSize <= newSize then i == previousSize else newSize <= i <= previousSize
        invariant desktopFocusChains == old(desktopFocusChains) - After(i, previousSize)
      {
        desktopFocusChains := desktopFocusChains - {i};
        i := i - 1;
      }
    }

    static method MakeFirstInChain(client: T, chain: seq<T>, minimized: set<T>) returns (r: seq<T>)
      ensures r == MadeFirst(chain, client, minimized)
    {
      r := RemoveAll(chain, client);
      if client in minimized {
        var i := FindLastMinimized(r, minimized);
        r := InsertAt(r, i + 1, client);
      } else {
        r := r + [client];
      }
    }

    static method FindLastMinimized(chain: seq<T>, minimized: set<T>) returns (i: int)
      ensures i + 1 == AfterLastMinimized(chain, minimized)
    {
      i := |chain| - 1;
      while i >= 0 && chain[i] !in minimized
        invariant -1 <= i < |chain|
        invariant AfterLastMinimized(chain, minimized) == AfterLastMinimized(chain[..i + 1], minimized)
      {
        assert chain[..i + 1][..i] == chain[..i];
        i := i - 1;
      }
      assert i >= 0 ==> chain[..i + 1][|chain[..i + 1]| - 1] == chain[i];
    }

    static method InsertClientIntoChain(client: T, chain: seq<T>, active: Option<T>) returns (r: seq<T>)
      ensures r == Inserted(chain, client, active)
    {
      if client in chain {
        return chain;
      }
      if active.Some? && active.value != client && chain != [] && chain[|chain| - 1] == active.value {
        r := InsertAt(chain, |chain| - 1, client);
      } else {
        r := chain + [client];
      }
    }

    static method UpdateClientInChain(client: T, change: Change, chain: seq<T>, minimized: set<T>, active: Option<T>)
      returns (r: seq<T>)
      ensures r == Changed(chain, client, change, minimized, active)
    {
      match change
      case MakeFirst => r := MakeFirstInChain(client, chain, minimized);
      case MakeLast => r := [client] + RemoveAll(chain, client);
      case Update => r := InsertClientIntoChain(client, chain, active);
    }

    /** `minimized` holds the windows that are minimized now. */
    method UpdateClient(client: T, view: View, change: Change, minimized: set<T>)
      modifies this
      ensures State() == Updated(old(State()), client, view, change, minimized)
      ensures old(Inv(State())) ==> Inv(State())
    {
      if Inv(State()) {
        UpdatedKeepsInv(State(), client, view, change, minimized);
      }
      if !view.wantsTabFocus {
        RemoveClient(client);
        return;
      }
      UpdateDesktopChains(client, view, change, minimized);
      mostRecentlyUsed := UpdateClientInChain(client, change, mostRecentlyUsed, minimized, activeClient);
    }

    method UpdateDesktopChains(client: T, view: View, change: Change, minimized: set<T>)
      modifies `desktopFocusChains
      ensures desktopFocusChains.Keys == old(desktopFocusChains).Keys
      ensures forall k | k in desktopFocusChains ::
                desktopFocusChains[k]
                == UpdatedChain(k, old(desktopFocusChains)[k], client, view, change, minimized, activeClient, currentDesktop)
    {
      var keys := desktopFocusChains.Keys;
      ghost var before := State();
      while keys != {}
        invariant keys <= before.desktops.Keys && desktopFocusChains.Keys == before.desktops.Keys
        invariant forall k | k in before.desktops ::
                    desktopFocusChains[k]
                    == if k in keys then before.desktops[k]
                       else UpdatedChain(k, before.desktops[k], client, view, change, minimized, before.active, before.current)
        invariant State() == before.(desktops := desktopFocusChains)
      {
        var k :| k in keys;
        var chain := UpdateDesktopChain(k, client, view, change, minimized);
        desktopFocusChains := desktopFocusChains[k := chain];
        keys := keys - {k};
      }
    }

    method UpdateDesktopChain(d: nat, client: T, view: View, change: Change, minimized: set<T>) returns (chain: seq<T>)
      requires d in desktopFocusChains
      ensures chain == UpdatedChain(d, desktopFocusChains[d], client, view, change, minimized,
                                    activeClient, currentDesktop)
    {
      chain := desktopFocusChains[d];
      if view.desktop == ON_ALL_DESKTOPS {
        if d == currentDesktop && (change == MakeFirst || change == MakeLast) {
          chain := UpdateClientInChain(client, change, chain, minimized, activeClient);
        } else {
          chain := InsertClientIntoChain(client, chain, activeClient);
        }
      } else if view.IsOnDesktop(d) {
        chain := UpdateClientInChain(client, change, chain, minimized, activeClient);
      } else {
        chain := RemoveAll(chain, client);
      }
    }

    static method MoveAfterInChain(client: T, reference: T, chain: seq<T>, same: (T, T) -> bool) returns (r: seq<T>)
      ensures r == MovedAfter(chain, client, reference, same)
    {
      if reference !in chain {
        return chain;
      }
      r := RemoveAll(chain, client);
      if same(reference, client) {
        r := InsertAt(r, IndexOf(r, reference), client);
      } else {
        var i := FindLastOfSameApplication(r, reference, same);
        if i >= 0 {
          r := InsertAt(r, i, client);
        }
      }
    }

    static method FindLastOfSameApplication(chain: seq<T>, reference: T, same: (T, T) -> bool) returns (i: int)
      ensures i == LastOfSameApplication(chain, reference, same)
    {
      i := |chain| - 1;
      while i >= 0 && !same(reference, chain[i])
        invariant -1 <= i < |chain|
        invariant LastOfSameApplication(chain, reference, same)
               == LastOfSameApplication(chain[..i + 1], reference, same)
      {
        assert chain[..i + 1][..i] == chain[..i];
        i := i - 1;
      }
      assert i >= 0 ==> chain[..i + 1][|chain[..i + 1]| - 1] == chain[i];
    }

    method MoveAfter(client: T, view: View, reference: T, same: (T, T) -> bool)
      modifies this
      ensures State() == MovedAfterClient(old(State()), client, view, reference, same)
      ensures old(Inv(State())) && same(reference, reference) ==> Inv(State())
    {
      if Inv(State()) && same(reference, reference) {
        MovedAfterClientKeepsInv(State(), client, view, reference, same);
      }
      if !view.wantsTabFocus {
        return;
      }
      var keys := desktopFocusChains.Keys;
      ghost var before := State();
      while keys != {}
        invariant keys <= before.desktops.Keys && desktopFocusChains.Keys == before.desktops.Keys
        invariant forall k | k in before.desktops ::
                    desktopFocusChains[k]
                    == if k in keys then before.desktops[k]
                       else MovedChain(k, before.desktops[k], client, view, reference, same)
        invariant State() == before.(desktops := desktopFocusChains)
      {
        var k :| k in keys;
        if view.IsOnDesktop(k) {
          var chain := MoveAfterInChain(client, reference, desktopFocusChains[k], same);
          desktopFocusChains := desktopFocusChains[k := chain];
        }
        keys := keys - {k};
      }
      assert desktopFocusChains == MovedAfterClient(before, client, view, reference, same).desktops;
      mostRecentlyUsed := MoveAfterInChain(client, reference, mostRecentlyUsed, same);
    }

    method NextMostRecentlyUsed(reference: T) returns (next: Option<T>)
      ensures next == if mostRecentlyUsed == [] then None else Some(Next(mostRecentlyUsed, reference))
    {
      if mostRecentlyUsed == [] {
        return None;
      }
      var index := IndexOf(mostRecentlyUsed, reference);
      if index == -1 {
        return Some(mostRecentlyUsed[0]);
      }
      if index == 0 {
        return Some(mostRecentlyUsed[|mostRecentlyUsed| - 1]);
      }
      return Some(mostRecentlyUsed[index - 1]);
    }
  }

}
