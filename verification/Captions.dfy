/** Captions: ordinary windows never share one, because a number is added where they would. The
    title is not condensed. */
module Captions {

  /** LEFT-TO-RIGHT MARK, after a suffix. */
  const LRM := "\U{200E}"

  // ---------------------------------------------------------------- numbers

  function Digit(d: nat): char
    requires d < 10
  {
    '0' + d as char
  }

  function Decimal(n: nat): (s: string)
    ensures s != []
  {
    if n < 10 then [Digit(n)] else Decimal(n / 10) + [Digit(n % 10)]
  }

  /** The number that a string of digits means. */
  function ValueOf(s: string): int {
    if s == [] then 0 else 10 * ValueOf(s[..|s| - 1]) + (s[|s| - 1] as int - '0' as int)
  }

  /** A decimal reads back as the number, and does not begin with a zero unless it is zero. */
  lemma {:induction false} DecimalReadsBack(n: nat)
    ensures ValueOf(Decimal(n)) == n
    ensures forall i | 0 <= i < |Decimal(n)| :: '0' <= Decimal(n)[i] <= '9'
    ensures n > 0 ==> Decimal(n)[0] != '0'
    decreases n
  {
    var s := Decimal(n);
    if n >= 10 {
      DecimalReadsBack(n / 10);
      assert s[..|s| - 1] == Decimal(n / 10);
    } else {
      assert s[..0] == [];
    }
  }

  lemma DecimalIsInjective(m: nat, n: nat)
    requires Decimal(m) == Decimal(n)
    ensures m == n
  {
    DecimalReadsBack(m);
    DecimalReadsBack(n);
  }

  /** The suffix with a number. */
  function Numbered(machine: string, n: nat): string {
    machine + " <" + Decimal(n) + ">" + LRM
  }

  lemma NumberedIsInjective(stem: string, machine: string, m: nat, n: nat)
    requires stem + Numbered(machine, m) == stem + Numbered(machine, n)
    ensures m == n
  {
    var k := |stem| + |machine| + 2;
    var a, b := stem + Numbered(machine, m), stem + Numbered(machine, n);
    assert a[k..|a| - 2] == Decimal(m);
    assert b[k..|b| - 2] == Decimal(n);
    DecimalIsInjective(m, n);
  }

  // ---------------------------------------------------------------- the search for a number

  /** The captions in use that numbers from `i` on would give. */
  ghost function Ahead(used: set<string>, stem: string, machine: string, i: nat): set<string> {
    set c | c in used && exists j :: i <= j && c == stem + Numbered(machine, j)
  }

  /** Every number that is taken uses up one of the captions ahead: the pigeonhole. */
  lemma TakenShrinksAhead(used: set<string>, stem: string, machine: string, i: nat)
    requires stem + Numbered(machine, i) in used
    ensures |Ahead(used, stem, machine, i + 1)| < |Ahead(used, stem, machine, i)|
  {
    var c := stem + Numbered(machine, i);
    var now, next := Ahead(used, stem, machine, i), Ahead(used, stem, machine, i + 1);
    forall d | d in next ensures d in now && d != c {
      var j :| i + 1 <= j && d == stem + Numbered(machine, j);
      if d == c {
        NumberedIsInjective(stem, machine, i, j);
      }
    }
    assert c in now;
    assert next <= now - {c};
    assert now - {c} == next + (now - {c} - next);
    assert |now - {c}| == |next| + |now - {c} - next|;
  }

  /** The least number from `i` on that gives an unused caption. */
  ghost function FreeNumber(used: set<string>, stem: string, machine: string, i: nat): (n: nat)
    ensures n >= i && stem + Numbered(machine, n) !in used
    ensures forall j | i <= j < n :: stem + Numbered(machine, j) in used
    decreases |Ahead(used, stem, machine, i)|
  {
    if stem + Numbered(machine, i) !in used then i
    else
      TakenShrinksAhead(used, stem, machine, i);
      FreeNumber(used, stem, machine, i + 1)
  }

  // ---------------------------------------------------------------- titles

  /** `ordinary` windows are those that are not special, and toolbars. */
  datatype Title = Title(normal: string, deco: string, suffix: string, ordinary: bool) {
    function Caption(): string { normal + suffix }
  }

  function Printable(s: string, isPrint: char -> bool): (r: string)
    ensures |r| == |s|
    ensures forall i | 0 <= i < |s| :: r[i] == if isPrint(s[i]) then s[i] else ' '
  {
    if s == [] then [] else [if isPrint(s[0]) then s[0] else ' '] + Printable(s[1..], isPrint)
  }

  /** The captions of all ordinary windows but one. */
  ghost function Used<C>(titles: map<C, Title>, c: C): set<string> {
    set d | d in titles && d != c && titles[d].ordinary :: titles[d].Caption()
  }

  ghost function Suffix(used: set<string>, normal: string, ordinary: bool, machine: string, shortcut: string): string {
    if ordinary && normal + (machine + shortcut) in used
    then Numbered(machine, FreeNumber(used, normal, machine, 2))
    else machine + shortcut
  }

  ghost function NewTitle(t: Title, used: set<string>, s: string, force: bool, machine: string, shortcut: string,
                          isPrint: char -> bool): Title {
    var printable := Printable(s, isPrint);
    if !force && s == t.normal then t
    else if !force && printable == t.deco then t.(normal := printable)
    else Title(printable, printable, Suffix(used, printable, t.ordinary, machine, shortcut), t.ordinary)
  }

  ghost predicate Unique<C>(titles: map<C, Title>) {
    && (forall c | c in titles :: titles[c].normal == titles[c].deco)
    && forall c, d | c in titles && d in titles && c != d && titles[c].ordinary && titles[d].ordinary ::
         titles[c].Caption() != titles[d].Caption()
  }

  /** A caption that `c` may take. */
  ghost predicate Fits<C>(titles: map<C, Title>, c: C, t: Title) {
    t.normal == t.deco && (t.ordinary ==> t.Caption() !in Used(titles, c))
  }

  lemma FittingKeepsUnique<C>(titles: map<C, Title>, c: C, t: Title)
    requires Unique(titles) && Fits(titles, c, t)
    ensures Unique(titles[c := t])
  {
    forall d | d in titles && d != c && titles[d].ordinary && t.ordinary ensures titles[d].Caption() != t.Caption() {
      assert titles[d].Caption() in Used(titles, c);
    }
  }

  lemma SuffixFits(used: set<string>, normal: string, ordinary: bool, machine: string, shortcut: string)
    ensures ordinary ==> normal + Suffix(used, normal, ordinary, machine, shortcut) !in used
  {
  }

  lemma NewTitleFits<C>(titles: map<C, Title>, c: C, s: string, force: bool, machine: string, shortcut: string,
                        isPrint: char -> bool)
    requires Unique(titles) && c in titles
    ensures Fits(titles, c, NewTitle(titles[c], Used(titles, c), s, force, machine, shortcut, isPrint))
  {
    SuffixFits(Used(titles, c), Printable(s, isPrint), titles[c].ordinary, machine, shortcut);
  }

  // ---------------------------------------------------------------- runs

  /** A new window starts with the title it was created with and is then forced to take it as a
      new one; an update forces the present title, when machine or shortcut have changed. */
  datatype Event<C> =
    | Manage(c: C, name: string, ordinary: bool, machine: string, shortcut: string)
    | TitleChanged(c: C, name: string, machine: string, shortcut: string)
    | UpdateCaption(c: C, machine: string, shortcut: string)
    | Unmanage(c: C)

  ghost function Step<C>(titles: map<C, Title>, e: Event<C>, isPrint: char -> bool): map<C, Title> {
    match e
    case Manage(c, name, ordinary, machine, shortcut) =>
      if c in titles then titles
      else
        var raw := Title(name, "", "", ordinary);
        titles[c := NewTitle(raw, Used(titles, c), name, true, machine, shortcut, isPrint)]
    case TitleChanged(c, name, machine, shortcut) =>
      if c !in titles then titles
      else titles[c := NewTitle(titles[c], Used(titles, c), name, false, machine, shortcut, isPrint)]
    case UpdateCaption(c, machine, shortcut) =>
      if c !in titles then titles
      else titles[c := NewTitle(titles[c], Used(titles, c), titles[c].normal, true, machine, shortcut, isPrint)]
    case Unmanage(c) => titles - {c}
  }

  ghost function Run<C>(titles: map<C, Title>, events: seq<Event<C>>, isPrint: char -> bool): map<C, Title> {
    if events == [] then titles
    else Step(Run(titles, events[..|events| - 1], isPrint), events[|events| - 1], isPrint)
  }

  lemma StepKeepsUnique<C>(titles: map<C, Title>, e: Event<C>, isPrint: char -> bool)
    requires Unique(titles)
    ensures Unique(Step(titles, e, isPrint))
  {
    match e
    case Manage(c, name, ordinary, machine, shortcut) =>
      if c !in titles {
        SuffixFits(Used(titles, c), Printable(name, isPrint), ordinary, machine, shortcut);
        var t := NewTitle(Title(name, "", "", ordinary), Used(titles, c), name, true, machine, shortcut, isPrint);
        FittingKeepsUnique(titles, c, t);
      }
    case TitleChanged(c, name, machine, shortcut) =>
      if c in titles {
        NewTitleFits(titles, c, name, false, machine, shortcut, isPrint);
        FittingKeepsUnique(titles, c,
                           NewTitle(titles[c], Used(titles, c), name, false, machine, shortcut, isPrint));
      }
    case UpdateCaption(c, machine, shortcut) =>
      if c in titles {
        NewTitleFits(titles, c, titles[c].normal, true, machine, shortcut, isPrint);
        FittingKeepsUnique(titles, c,
                           NewTitle(titles[c], Used(titles, c), titles[c].normal, true, machine, shortcut, isPrint));
      }
    case Unmanage(c) =>
  }

  /** Whatever titles windows choose, no two ordinary windows ever have the same caption. */
  lemma {:induction false} CaptionsStayUnique<C>(titles: map<C, Title>, events: seq<Event<C>>, isPrint: char -> bool)
    requires Unique(titles)
    ensures Unique(Run(titles, events, isPrint))
    decreases |events|
  {
    if events != [] {
      CaptionsStayUnique(titles, events[..|events| - 1], isPrint);
      StepKeepsUnique(Run(titles, events[..|events| - 1], isPrint), events[|events| - 1], isPrint);
    }
  }

  /** No number where none is needed, and otherwise the least that will do, from 2 on. */
  ghost predicate LeastSuffix(used: set<string>, normal: string, ordinary: bool, machine: string, shortcut: string,
                              suffix: string) {
    if !ordinary || normal + (machine + shortcut) !in used then suffix == machine + shortcut
    else exists n: nat ::
      && n >= 2 && suffix == machine + " <" + Decimal(n) + ">" + LRM && normal + suffix !in used
      && forall j | 2 <= j < n :: normal + Numbered(machine, j) in used
  }

  /** A number appears only where it is needed, it is the least that will do, and from 2 on. */
  lemma NumbersAreLeast(used: set<string>, normal: string, ordinary: bool, machine: string, shortcut: string)
    ensures LeastSuffix(used, normal, ordinary, machine, shortcut, Suffix(used, normal, ordinary, machine, shortcut))
  {
    if ordinary && normal + (machine + shortcut) in used {
      var n := FreeNumber(used, normal, machine, 2);
      assert Suffix(used, normal, ordinary, machine, shortcut) == Numbered(machine, n);
    }
  }

  // ---------------------------------------------------------------- what is shown

  /** `shown` is `s` with a blank for whatever cannot be printed. */
  predicate ShowsAs(shown: string, s: string, isPrint: char -> bool) {
    && |shown| == |s|
    && forall i | 0 <= i < |s| :: shown[i] == if isPrint(s[i]) then s[i] else ' '
  }

  lemma OnlyOneShows(shown: string, shown': string, s: string, isPrint: char -> bool)
    requires ShowsAs(shown, s, isPrint) && ShowsAs(shown', s, isPrint)
    ensures shown == shown'
  {
  }

  /** A new title is shown, with the suffix that it needs, unless the window has that title already. */
  ghost predicate FollowsTitle(t: Title, used: set<string>, s: string, force: bool, machine: string, shortcut: string,
                               isPrint: char -> bool, r: Title) {
    && r.ordinary == t.ordinary
    && (!force && s == t.normal ==> r == t)
    && (force || s != t.normal ==> ShowsAs(r.normal, s, isPrint))
    && (!force && s != t.normal && ShowsAs(t.deco, s, isPrint) ==> r.deco == t.deco && r.suffix == t.suffix)
    && (force || (s != t.normal && !ShowsAs(t.deco, s, isPrint)) ==>
          r.deco == r.normal && LeastSuffix(used, r.normal, t.ordinary, machine, shortcut, r.suffix))
  }

  lemma NewTitleFollows(t: Title, used: set<string>, s: string, force: bool, machine: string, shortcut: string,
                        isPrint: char -> bool)
    ensures FollowsTitle(t, used, s, force, machine, shortcut, isPrint,
                         NewTitle(t, used, s, force, machine, shortcut, isPrint))
  {
    NumbersAreLeast(used, Printable(s, isPrint), t.ordinary, machine, shortcut);
    if ShowsAs(t.deco, s, isPrint) {
      OnlyOneShows(t.deco, Printable(s, isPrint), s, isPrint);
    }
  }

  /** The names that windows have asked for last. */
  ghost function Names<C>(names: map<C, string>, events: seq<Event<C>>): map<C, string>
    decreases |events|
  {
    if events == [] then names
    else
      var before := Names(names, events[..|events| - 1]);
      match events[|events| - 1]
      case Manage(c, name, _, _, _) => if c in before then before else before[c := name]
      case TitleChanged(c, name, _, _) => if c in before then before[c := name] else before
      case UpdateCaption(_, _, _) => before
      case Unmanage(c) => before - {c}
  }

  ghost predicate AllShown<C>(titles: map<C, Title>, names: map<C, string>, isPrint: char -> bool) {
    titles.Keys == names.Keys && forall c | c in titles :: ShowsAs(titles[c].normal, names[c], isPrint)
  }

  /** After every run each window shows the name that it asked for last. */
  lemma {:induction false} LastNameIsShown<C>(titles: map<C, Title>, names: map<C, string>, events: seq<Event<C>>,
                                              isPrint: char -> bool)
    requires AllShown(titles, names, isPrint)
    ensures AllShown(Run(titles, events, isPrint), Names(names, events), isPrint)
    decreases |events|
  {
    if events != [] {
      LastNameIsShown(titles, names, events[..|events| - 1], isPrint);
      var t, n := Run(titles, events[..|events| - 1], isPrint), Names(names, events[..|events| - 1]);
      match events[|events| - 1]
      case Manage(c, name, ordinary, machine, shortcut) =>
      case TitleChanged(c, name, machine, shortcut) =>
        if c in t {
          ShownIsPrintable(t[c].normal, n[c], isPrint);
        }
      case UpdateCaption(c, machine, shortcut) =>
        if c in t {
          ShownAgain(t[c].normal, n[c], isPrint);
        }
      case Unmanage(c) =>
    }
  }

  /** What one event does to the title of its window: a new title is only taken if it is new, and an update
      looks for the suffix again. No other window is touched. */
  lemma EventFollows<C>(titles: map<C, Title>, e: Event<C>, isPrint: char -> bool)
    ensures
      var r := Step(titles, e, isPrint);
      match e
      case Manage(c, name, ordinary, machine, shortcut) =>
        && r.Keys == titles.Keys + {c} && (forall d | d in titles :: r[d] == titles[d])
        && (c !in titles ==>
              && r[c].ordinary == ordinary && r[c].deco == r[c].normal && ShowsAs(r[c].normal, name, isPrint)
              && LeastSuffix(Used(titles, c), r[c].normal, ordinary, machine, shortcut, r[c].suffix))
      case TitleChanged(c, name, machine, shortcut) =>
        && r.Keys == titles.Keys && (forall d | d in titles && d != c :: r[d] == titles[d])
        && (c in titles ==> FollowsTitle(titles[c], Used(titles, c), name, false, machine, shortcut, isPrint, r[c]))
      case UpdateCaption(c, machine, shortcut) =>
        && r.Keys == titles.Keys && (forall d | d in titles && d != c :: r[d] == titles[d])
        && (c in titles ==>
              FollowsTitle(titles[c], Used(titles, c), titles[c].normal, true, machine, shortcut, isPrint, r[c]))
      case Unmanage(c) => r == map d | d in titles && d != c :: titles[d]
  {
    match e
    case Manage(c, name, ordinary, machine, shortcut) =>
      NewTitleFollows(Title(name, "", "", ordinary), Used(titles, c), name, true, machine, shortcut, isPrint);
    case TitleChanged(c, name, machine, shortcut) =>
      if c in titles {
        NewTitleFollows(titles[c], Used(titles, c), name, false, machine, shortcut, isPrint);
      }
    case UpdateCaption(c, machine, shortcut) =>
      if c in titles {
        NewTitleFollows(titles[c], Used(titles, c), titles[c].normal, true, machine, shortcut, isPrint);
      }
    case Unmanage(c) =>
  }

  lemma ShownIsPrintable(shown: string, s: string, isPrint: char -> bool)
    requires ShowsAs(shown, s, isPrint)
    ensures ShowsAs(shown, shown, isPrint)
  {
  }

  lemma ShownAgain(shown: string, s: string, isPrint: char -> bool)
    requires ShowsAs(shown, s, isPrint)
    ensures ShowsAs(Printable(shown, isPrint), s, isPrint)
  {
  }

  // ---------------------------------------------------------------- the objects

  class Client {
    var capNormal: string
    var capDeco: string
    var capSuffix: string
    const ordinary: bool

    constructor (name: string, ordinary: bool)
      ensures Now() == Title(name, "", "", ordinary)
    {
      capNormal, capDeco, capSuffix, this.ordinary := name, "", "", ordinary;
    }

    function Now(): Title
      reads this
    {
      Title(capNormal, capDeco, capSuffix, ordinary)
    }

    function Caption(): string
      reads this
    {
      capNormal + capSuffix
    }
  }

  /** The captions of all ordinary windows in the list but one. */
  ghost function UsedIn(clients: seq<Client>, c: Client): set<string>
    reads clients
  {
    set d | d in clients && d != c && d.ordinary :: d.Caption()
  }

  ghost function Titles(clients: seq<Client>): map<Client, Title>
    reads clients
  {
    map d | d in clients :: d.Now()
  }

  /** Does another ordinary window have the caption of `c`? */
  method FindSameCaption(clients: seq<Client>, c: Client) returns (found: bool)
    ensures found <==> c.Caption() in UsedIn(clients, c)
  {
    for i := 0 to |clients|
      invariant forall k | 0 <= k < i :: clients[k] != c && clients[k].ordinary ==> clients[k].Caption() != c.Caption()
    {
      if clients[i].ordinary && clients[i] != c && clients[i].Caption() == c.Caption() {
        assert clients[i].Caption() in UsedIn(clients, c);
        return true;
      }
    }
    return false;
  }

  method MakePrintable(s: string, isPrint: char -> bool) returns (r: string)
    ensures r == Printable(s, isPrint)
  {
    r := s;
    for i := 0 to |s|
      invariant |r| == |s|
      invariant forall k | 0 <= k < |s| :: r[k] == if k < i && !isPrint(s[k]) then ' ' else s[k]
    {
      if !isPrint(s[i]) {
        r := r[i := ' '];
      }
    }
  }

  /** `machine` and `shortcut` are the suffixes for a remote machine and for a shortcut. */
  method SetCaption(clients: seq<Client>, c: Client, s: string, force: bool, machine: string, shortcut: string,
                    isPrint: char -> bool)
    modifies c
    ensures c.Now() == NewTitle(old(c.Now()), old(UsedIn(clients, c)), s, force, machine, shortcut, isPrint)
    ensures FollowsTitle(old(c.Now()), old(UsedIn(clients, c)), s, force, machine, shortcut, isPrint, c.Now())
  {
    NewTitleFollows(c.Now(), UsedIn(clients, c), s, force, machine, shortcut, isPrint);
    if !force && s == c.capNormal {
      return;
    }
    ghost var used := UsedIn(clients, c);
    c.capNormal := MakePrintable(s, isPrint);
    if !force && c.capNormal == c.capDeco {
      return;
    }
    c.capDeco := c.capNormal;
    assert UsedIn(clients, c) == used;
    ChooseSuffix(clients, c, machine, shortcut);
  }

  method ChooseSuffix(clients: seq<Client>, c: Client, machine: string, shortcut: string)
    modifies c`capSuffix
    ensures c.capSuffix == Suffix(old(UsedIn(clients, c)), c.capNormal, c.ordinary, machine, shortcut)
  {
    ghost var used := UsedIn(clients, c);
    c.capSuffix := machine + shortcut;
    assert UsedIn(clients, c) == used;
    if c.ordinary {
      var found := FindSameCaption(clients, c);
      if found {
        FindNumber(clients, c, machine);
      }
    }
  }

  method FindNumber(clients: seq<Client>, c: Client, machine: string)
    modifies c`capSuffix
    ensures UsedIn(clients, c) == old(UsedIn(clients, c))
    ensures c.capSuffix == Numbered(machine, FreeNumber(old(UsedIn(clients, c)), c.capNormal, machine, 2))
  {
    ghost var used := UsedIn(clients, c);
    var i := 2;
    var found := true;
    while found
      invariant i >= 2 && UsedIn(clients, c) == used
      invariant if found then FreeNumber(used, c.capNormal, machine, i) == FreeNumber(used, c.capNormal, machine, 2)
                else c.capSuffix == Numbered(machine, FreeNumber(used, c.capNormal, machine, 2))
      decreases found, |Ahead(used, c.capNormal, machine, i)|
    {
      c.capSuffix := Numbered(machine, i);
      assert UsedIn(clients, c) == used;
      found := FindSameCaption(clients, c);
      if found {
        TakenShrinksAhead(used, c.capNormal, machine, i);
      }
      i := i + 1;
    }
  }

  /** A window of the session gets a new title. */
  method ChangeTitle(clients: seq<Client>, c: Client, s: string, force: bool, machine: string, shortcut: string,
                     isPrint: char -> bool)
    requires c in clients && Unique(Titles(clients))
    modifies c
    ensures Unique(Titles(clients))
    ensures FollowsTitle(old(c.Now()), old(UsedIn(clients, c)), s, force, machine, shortcut, isPrint, c.Now())
    ensures
      var before := old(Titles(clients));
      Titles(clients) == before[c := NewTitle(before[c], Used(before, c), s, force, machine, shortcut, isPrint)]
  {
    ghost var before := Titles(clients);
    assert forall d | d in clients :: before[d].Caption() == d.Caption() && before[d].ordinary == d.ordinary;
    ghost var used := UsedIn(clients, c);
    assert used <= Used(before, c);
    assert Used(before, c) <= used;
    SetCaption(clients, c, s, force, machine, shortcut, isPrint);
    NewTitleFits(before, c, s, force, machine, shortcut, isPrint);
    ghost var after := NewTitle(before[c], used, s, force, machine, shortcut, isPrint);
    FittingKeepsUnique(before, c, after);
    assert c.Now() == after && used == Used(before, c);
    assert Titles(clients) == before[c := c.Now()];
  }

}
