/** Moving a window to another desktop takes its transients along, and a modal dialog takes its
    main windows: `AbstractClient::setDesktop` on an arbitrary graph of windows. */
module DesktopPropagation {
  import opened FocusChains

  class Client {
    var desktop: int
    var isModal: bool
    var wantsTabFocus: bool
    /** In stacking order. */
    var transients: seq<Client>
    var mainClients: seq<Client>

    /** The windows that a move of this one moves too. */
    function Followers(): (r: seq<Client>)
      reads `transients, `mainClients, `isModal
      ensures forall v | v in r :: v in transients || (isModal && v in mainClients)
      ensures forall v | v in transients :: v in r
      ensures isModal ==> forall v | v in mainClients :: v in r
    {
      transients + if isModal then mainClients else []
    }

    function AsView(): View
      reads `wantsTabFocus, `desktop
    {
      View(wantsTabFocus, desktop)
    }
  }

  /** The desktops and the chains at one moment. */
  datatype Snapshot = Snapshot(desktop: map<Client, int>, chains: map<nat, seq<Client>>)

  /** A move to `target` among windows with these followers and these wishes for focus. `region` is
      a set of windows the move may not leave. */
  datatype Trip = Trip(followers: map<Client, seq<Client>>, wanting: set<Client>, region: set<Client>, target: int) {

    /** With a window, the region holds all its followers that are not yet on the target. */
    predicate Closed(desktop: map<Client, int>) {
      && region <= followers.Keys <= desktop.Keys
      && forall w | w in region :: forall v | v in followers[w] :: v in desktop && (desktop[v] == target || v in region)
    }

    /** A window stays or goes to the target, and only windows of the region go. */
    predicate OnlyToTarget(s: Snapshot, t: Snapshot) {
      && s.desktop.Keys == t.desktop.Keys <= followers.Keys
      && forall w | w in s.desktop :: t.desktop[w] == s.desktop[w] || (t.desktop[w] == target && w in region)
    }

    /** Who goes takes all followers along. */
    predicate WithFollowers(s: Snapshot, t: Snapshot)
      requires OnlyToTarget(s, t)
    {
      forall w | w in s.desktop && t.desktop[w] != s.desktop[w] ::
        Arrived(t, followers[w])
    }

    /** Who goes is then in the target's chain alone, if it wants focus, and in none otherwise;
        everybody else is in the same chains as before. */
    predicate Listed(s: Snapshot, t: Snapshot)
      requires OnlyToTarget(s, t)
    {
      && s.chains.Keys == t.chains.Keys
      && forall w, d | w in s.desktop && d in t.chains ::
           w in t.chains[d] <==> if t.desktop[w] == s.desktop[w] then w in s.chains[d] else w in wanting && d == target
    }

    predicate Moved(s: Snapshot, t: Snapshot) {
      OnlyToTarget(s, t) && WithFollowers(s, t) && Listed(s, t)
    }

    function Elsewhere(desktop: map<Client, int>): set<Client> {
      set w | w in desktop && desktop[w] != target
    }

    lemma LeavingShrinks(desktop: map<Client, int>, c: Client)
      requires c in desktop && desktop[c] != target
      ensures |Elsewhere(desktop[c := target])| < |Elsewhere(desktop)|
    {
      assert Elsewhere(desktop[c := target]) == Elsewhere(desktop) - {c};
    }

    predicate Arrived(s: Snapshot, list: seq<Client>) {
      forall v | v in list :: v in s.desktop && s.desktop[v] == target
    }

    lemma ArrivedStays(s: Snapshot, t: Snapshot, list: seq<Client>)
      requires Arrived(s, list) && OnlyToTarget(s, t)
      ensures Arrived(t, list)
    {
    }

    lemma ArrivedExtends(s: Snapshot, list: seq<Client>, i: nat)
      requires i < |list| && Arrived(s, list[..i]) && Arrived(s, [list[i]])
      ensures Arrived(s, list[..i + 1])
    {
      assert list[i] in [list[i]];
      assert list[..i + 1] == list[..i] + [list[i]];
    }

    lemma MovesCompose(s: Snapshot, t: Snapshot, u: Snapshot)
      requires Moved(s, t) && Moved(t, u)
      ensures Moved(s, u)
    {
      forall w | w in s.desktop && u.desktop[w] != s.desktop[w]
        ensures Arrived(u, followers[w])
      {
        if t.desktop[w] != s.desktop[w] {
          assert u.desktop[w] == t.desktop[w];
        }
      }
      forall w, d | w in s.desktop && d in u.chains
        ensures w in u.chains[d]
                <==> if u.desktop[w] == s.desktop[w] then w in s.chains[d] else w in wanting && d == target
      {
        assert u.desktop[w] == s.desktop[w] ==> t.desktop[w] == s.desktop[w];
      }
    }

    /** A window goes along however long the way to it from a window that goes. */
    lemma {:induction false} GoesAlong(s: Snapshot, t: Snapshot, path: seq<Client>)
      requires Moved(s, t)
      requires path != [] && (forall w | w in path :: w in s.desktop && s.desktop[w] != target)
      requires forall i | 0 < i < |path| :: path[i] in followers[path[i - 1]]
      requires t.desktop[path[0]] == target
      ensures t.desktop[path[|path| - 1]] == target
      decreases |path|
    {
      if |path| > 1 {
        var shorter := path[..|path| - 1];
        GoesAlong(s, t, shorter);
        assert path[|path| - 1] in followers[shorter[|shorter| - 1]];
      }
    }

    /** The windows that `n` steps along followers lead to, from `c` through windows that are not yet
        on the target. */
    function Within(desktop: map<Client, int>, c: Client, n: nat): set<Client> {
      if n > 0 then Extended(desktop, Within(desktop, c, n - 1))
      else if c in desktop && desktop[c] != target then {c}
      else {}
    }

    /** One step further. */
    function Extended(desktop: map<Client, int>, nearer: set<Client>): (r: set<Client>)
      ensures nearer <= r
    {
      nearer + set v | v in Elsewhere(desktop) && Followed(nearer, v)
    }

    predicate Followed(leaders: set<Client>, v: Client) {
      exists w :: w in leaders && w in followers && v in followers[w]
    }

    /** No window is further away than there are windows. */
    function Reachable(desktop: map<Client, int>, c: Client): set<Client> {
      Within(desktop, c, |desktop|)
    }

    lemma {:induction false} WithinIsElsewhere(desktop: map<Client, int>, c: Client, n: nat)
      ensures Within(desktop, c, n) <= Elsewhere(desktop)
      decreases n
    {
      if n > 0 {
        WithinIsElsewhere(desktop, c, n - 1);
      }
    }

    lemma NothingExtends(desktop: map<Client, int>)
      ensures Extended(desktop, {}) == {}
    {
    }

    /** The set grows with every step until it stops growing for good. */
    lemma {:induction false} WithinGrows(desktop: map<Client, int>, c: Client, n: nat)
      ensures
        var r := Within(desktop, c, n);
        Extended(desktop, r) == r || |r| > n
      decreases n
    {
      if n == 0 {
        NothingExtends(desktop);
      } else {
        WithinGrows(desktop, c, n - 1);
        GrowsOnce(desktop, Within(desktop, c, n - 1), n - 1);
      }
    }

    lemma GrowsOnce(desktop: map<Client, int>, nearer: set<Client>, n: nat)
      requires Extended(desktop, nearer) == nearer || |nearer| > n
      ensures
        var r := Extended(desktop, nearer);
        Extended(desktop, r) == r || |r| > n + 1
    {
      if Extended(desktop, nearer) != nearer {
        Fewer(nearer, Extended(desktop, nearer));
      }
    }

    static lemma Fewer(a: set<Client>, b: set<Client>)
      requires a < b
      ensures |a| < |b|
    {
      assert b == a + (b - a);
    }

    /** The reachable windows are a region of their own. */
    lemma ReachableIsClosed(desktop: map<Client, int>, c: Client)
      requires desktop.Keys == followers.Keys && region == Reachable(desktop, c)
      requires forall w | w in followers :: forall v | v in followers[w] :: v in desktop
      ensures Closed(desktop)
      ensures c in desktop && desktop[c] != target ==> c in region
    {
      var n := |desktop|;
      WithinIsElsewhere(desktop, c, n);
      WithinGrows(desktop, c, n);
      SubsetIsSmaller(region, desktop.Keys);
      assert |desktop.Keys| == |desktop|;
      assert region == Extended(desktop, region);
      forall w, v | w in region && v in followers[w] && desktop[v] != target ensures v in region {
        assert v in Elsewhere(desktop) && Followed(region, v);
      }
      StartIsWithin(desktop, c, n);
    }

    static lemma SubsetIsSmaller(a: set<Client>, b: set<Client>)
      requires a <= b
      ensures |a| <= |b|
    {
      if a != b {
        Fewer(a, b);
      }
    }

    lemma {:induction false} StartIsWithin(desktop: map<Client, int>, c: Client, n: nat)
      ensures c in desktop && desktop[c] != target ==> c in Within(desktop, c, n)
      decreases n
    {
      if n > 0 {
        StartIsWithin(desktop, c, n - 1);
      }
    }

    lemma {:induction false} WithinGoes(c: Client, s: Snapshot, t: Snapshot, n: nat)
      requires Moved(s, t) && c in s.desktop && t.desktop[c] == target
      ensures forall w | w in Within(s.desktop, c, n) :: w in t.desktop && t.desktop[w] == target
      decreases n
    {
      if n > 0 {
        WithinGoes(c, s, t, n - 1);
        WithinIsElsewhere(s.desktop, c, n - 1);
      }
    }

    /** A window goes exactly if it can be reached. */
    lemma ExactlyReachableGo(c: Client, s: Snapshot, t: Snapshot)
      requires Moved(s, t) && region == Reachable(s.desktop, c)
      requires c in s.desktop && t.desktop[c] == target
      ensures forall w | w in s.desktop :: t.desktop[w] == if w in region then target else s.desktop[w]
    {
      WithinGoes(c, s, t, |s.desktop|);
    }

    /** A window goes first, then its followers, and then the window enters the chains. */
    lemma LeaderMoves(c: Client, start: Snapshot, led: Snapshot, end: Snapshot)
      requires c in start.desktop && start.desktop[c] != target && c in region
      requires Moved(start.(desktop := start.desktop[c := target]), led)
      requires c in followers && Arrived(led, followers[c])
      requires Entered(c, led, end)
      ensures Moved(start, end)
    {
      var gone := start.desktop[c := target];
      assert led.desktop[c] == gone[c];
      forall w | w in start.desktop && w != c ensures gone[w] == start.desktop[w] {}
    }

    /** `c` is listed for the desktop it is on, and nothing else differs. */
    predicate Entered(c: Client, s: Snapshot, t: Snapshot) {
      && s.desktop == t.desktop && s.chains.Keys == t.chains.Keys && c in t.desktop
      && forall w, d | w in s.desktop && d in t.chains ::
           w in t.chains[d] <==> if w == c then w in wanting && d == t.desktop[c] else w in s.chains[d]
    }

    lemma MoveKeepsClosed(s: Snapshot, t: Snapshot)
      requires Closed(s.desktop) && Moved(s, t)
      ensures Closed(t.desktop)
      ensures |Elsewhere(t.desktop)| <= |Elsewhere(s.desktop)|
    {
      var a, b := Elsewhere(t.desktop), Elsewhere(s.desktop);
      assert a <= b;
      assert b == a + (b - a);
    }
  }

  /** All windows of a session with the chains they are in. */
  class Workspace {
    var numberOfDesktops: nat
    const focusChain: FocusChain<Client>
    ghost const windows: set<Client>

    ghost predicate Valid()
      reads `numberOfDesktops, focusChain, windows`desktop
    {
      && Inv(focusChain.State())
      && numberOfDesktops >= 1
      && (forall d: nat :: d in focusChain.desktopFocusChains <==> 1 <= d <= numberOfDesktops)
      && (forall w | w in windows :: w.desktop != ON_ALL_DESKTOPS)
    }

    /** The requested desktop, or the nearest one that there is. */
    function Target(requested: int): (r: int)
      reads `numberOfDesktops
      ensures 1 <= requested <= numberOfDesktops ==> r == requested
      ensures requested < 1 ==> r == 1
      ensures requested > numberOfDesktops >= 1 ==> r == numberOfDesktops
    {
      var d := if requested < numberOfDesktops then requested else numberOfDesktops;
      if d < 1 then 1 else d
    }

    ghost function Now(): Snapshot
      reads focusChain`desktopFocusChains, windows`desktop
    {
      Snapshot(map w | w in windows :: w.desktop, focusChain.desktopFocusChains)
    }

    /** The trip describes these windows. */
    ghost predicate Describes(trip: Trip)
      reads windows`transients, windows`mainClients, windows`isModal, windows`wantsTabFocus
    {
      && trip.followers.Keys == windows && trip.wanting <= windows && trip.region <= windows
      && (forall w | w in windows :: w.wantsTabFocus <==> w in trip.wanting)
      && (forall w | w in windows :: trip.followers[w] == w.Followers())
      && (forall w | w in windows :: forall v | v in trip.followers[w] :: v in windows)
    }

    constructor (numberOfDesktops: nat, focusChain: FocusChain<Client>, ghost windows: set<Client>)
      ensures this.numberOfDesktops == numberOfDesktops
      ensures this.focusChain == focusChain && this.windows == windows
    {
      this.numberOfDesktops, this.focusChain, this.windows := numberOfDesktops, focusChain, windows;
    }

    /** The window is the first to be focused on its desktop. */
    ghost predicate FocusedFirst(c: Client)
      reads c`desktop, focusChain`desktopFocusChains
    {
      && c.desktop >= 0 && c.desktop in focusChain.desktopFocusChains
      && var chain := focusChain.desktopFocusChains[c.desktop]; chain != [] && chain[|chain| - 1] == c
    }

    method EnterChains(c: Client, minimized: set<Client>, ghost trip: Trip)
      requires Valid() && c in windows && Describes(trip)
      modifies focusChain
      ensures Valid() && Describes(trip)
      ensures trip.Entered(c, old(Now()), Now())
      ensures focusChain.State() == Updated(old(focusChain.State()), c, c.AsView(), MakeFirst, minimized)
      ensures c.desktop in focusChain.desktopFocusChains && c.wantsTabFocus && c !in minimized ==> FocusedFirst(c)
    {
      UpdatePutsOnOneDesktop(focusChain.State(), c, c.AsView(), MakeFirst, minimized);
      focusChain.UpdateClient(c, c.AsView(), MakeFirst, minimized);
    }

    /** Moves a window and everything that follows it. The trip's region is any set that holds the
        window and, with a window, all followers not yet on the target; no other window moves. */
    method SetDesktop(c: Client, requested: int, minimized: set<Client>, ghost trip: Trip)
      requires Valid() && c in windows && requested != ON_ALL_DESKTOPS
      requires Describes(trip) && trip.target == Target(requested)
      requires trip.Closed(Now().desktop) && (c.desktop == trip.target || c in trip.region)
      modifies windows`desktop, focusChain
      ensures Valid() && Describes(trip)
      ensures c.desktop == trip.target && trip.Moved(old(Now()), Now())
      ensures old(c.desktop) != trip.target && c.wantsTabFocus && c !in minimized ==> FocusedFirst(c)
      decreases |trip.Elsewhere(Now().desktop)|, 0
    {
      var target := Target(requested);
      if c.desktop == target {
        return;
      }
      ghost var start := Now();
      Leave(c, target, trip);
      MoveRelatives(c, target, minimized, trip);
      ghost var led := Now();
      EnterChains(c, minimized, trip);
      trip.LeaderMoves(c, start, led, Now());
    }

    /** A request from outside: exactly the windows go that can be reached, through windows not yet on
        the target, along transients and from modal windows to their main windows. */
    method RequestDesktop(c: Client, requested: int, minimized: set<Client>, ghost trip: Trip)
      requires Valid() && c in windows && requested != ON_ALL_DESKTOPS
      requires Describes(trip) && trip.target == Target(requested)
      requires trip.region == trip.Reachable(Now().desktop, c)
      modifies windows`desktop, focusChain
      ensures Valid() && Describes(trip) && trip.Moved(old(Now()), Now())
      ensures forall w | w in windows ::
                w.desktop == if w in trip.region then trip.target else old(w.desktop)
    {
      ghost var start := Now();
      trip.ReachableIsClosed(start.desktop, c);
      SetDesktop(c, requested, minimized, trip);
      ghost var end := Now();
      trip.ExactlyReachableGo(c, start, end);
      assert forall w | w in windows :: end.desktop[w] == w.desktop && start.desktop[w] == old(w.desktop);
    }

    method Leave(c: Client, target: int, ghost trip: Trip)
      requires Valid() && Describes(trip) && c in windows && c.desktop != target && target == trip.target >= 1
      modifies c`desktop
      ensures Valid() && Describes(trip)
      ensures
        var start := old(Now());
        && Now() == start.(desktop := start.desktop[c := target])
        && |trip.Elsewhere(Now().desktop)| < |trip.Elsewhere(start.desktop)|
    {
      ghost var start := Now();
      c.desktop := target;
      assert Now() == start.(desktop := start.desktop[c := target]);
      trip.LeavingShrinks(start.desktop, c);
    }

    method MoveRelatives(c: Client, target: int, minimized: set<Client>, ghost trip: Trip)
      requires Valid() && 1 <= target <= numberOfDesktops && c in windows && c in trip.region
      requires Describes(trip) && trip.target == target && trip.Closed(Now().desktop)
      modifies windows`desktop, focusChain
      ensures Valid() && Describes(trip)
      ensures trip.Arrived(Now(), trip.followers[c])
      ensures trip.Moved(old(Now()), Now())
      decreases |trip.Elsewhere(Now().desktop)|, 2
    {
      ghost var start := Now();
      assert trip.followers[c] == c.Followers();
      assert forall v | v in c.transients :: v in trip.followers[c];
      MoveAll(c.transients, target, minimized, trip);
      ghost var led := Now();
      if c.isModal {
        trip.MoveKeepsClosed(start, led);
        assert forall v | v in c.mainClients :: v in trip.followers[c];
        MoveAll(c.mainClients, target, minimized, trip);
        trip.MovesCompose(start, led, Now());
        trip.ArrivedStays(led, Now(), c.transients);
      }
    }

    /** Both loops over the relatives of a window. */
    method MoveAll(list: seq<Client>, target: int, minimized: set<Client>, ghost trip: Trip)
      requires Valid() && 1 <= target <= numberOfDesktops
      requires Describes(trip) && trip.target == target && trip.Closed(Now().desktop)
      requires forall v | v in list :: v in windows && (v.desktop == target || v in trip.region)
      modifies windows`desktop, focusChain
      ensures Valid() && Describes(trip)
      ensures trip.Arrived(Now(), list)
      ensures trip.Moved(old(Now()), Now())
      decreases |trip.Elsewhere(Now().desktop)|, 1
    {
      ghost var start := Now();
      for i := 0 to |list|
        invariant Valid() && Describes(trip)
        invariant trip.Moved(start, Now())
        invariant trip.Arrived(Now(), list[..i])
      {
        ghost var mid := Now();
        trip.MoveKeepsClosed(start, mid);
        assert list[i] in list;
        assert mid.desktop[list[i]] == list[i].desktop;
        SetDesktop(list[i], target, minimized, trip);
        trip.MovesCompose(start, mid, Now());
        trip.ArrivedStays(mid, Now(), list[..i]);
        trip.ArrivedExtends(Now(), list, i);
      }
    }
  }

}
