/**
 * The route table: loading it from the configuration file, and choosing the rule for a request.
 * A configuration line is at most one `fgets`; names fit their buffers.
 */
module Router {
  import opened Common

  const MAX_ROUTES := 32

  datatype Kind = Static | Cgi | Proxy

  datatype Rule = Rule(path: string, kind: Kind, target: string, needsAuth: bool)

  // ---------------------------------------------------------------------------------------------
  // Lines

  predicate IsSpace(c: char) {
    c in {' ', '\t', '\n', '\r', 11 as char, 12 as char}
  }

  /** White space is what `isspace` takes for it. */
  lemma SpaceCodes(c: char)
    ensures IsSpace(c) <==> c as int == 32 || 9 <= c as int <= 13
  {
  }

  /** The length of the first run of characters that are (not) white space. */
  function Span(s: string, space: bool): (n: nat)
    ensures n <= |s|
    ensures forall i | 0 <= i < n :: IsSpace(s[i]) == space
    ensures n < |s| ==> IsSpace(s[n]) != space
  {
    if s == "" || IsSpace(s[0]) != space then 0 else 1 + Span(s[1..], space)
  }

  /** The words `sscanf` finds in a line. */
  function Words(line: string): seq<string>
    decreases |line|
  {
    var rest := line[Span(line, true)..];
    if rest == "" then [] else [rest[..Span(rest, false)]] + Words(rest[Span(rest, false)..])
  }

  /** What a line asks for; Unsupported has three words but no known type. */
  datatype Entry = Nothing | Route(path: string, kind: Kind, target: string) | Unsupported | Auth(path: string)

  function Parse(line: string): Entry {
    if line != "" && line[0] in {'#', '\n', '\r'} then Nothing
    else
      var w := Words(line);
      if |w| >= 3 then
        if w[0] == "STATIC" then Route(w[1], Static, w[2])
        else if w[0] == "CGI" then Route(w[1], Cgi, w[2])
        else if w[0] == "PROXY" then Route(w[1], Proxy, w[2])
        else Unsupported
      else if |w| == 2 && w[0] == "AUTH" then Auth(w[1])
      else Nothing
  }

  /** Words with blanks between them: each word behind its gap, and an end. */
  function Spaced(gaps: seq<string>, words: seq<string>, end: string): string
    requires |gaps| == |words|
  {
    if words == [] then end else gaps[0] + words[0] + Spaced(gaps[1..], words[1..], end)
  }

  predicate Blank(s: string) {
    forall i | 0 <= i < |s| :: IsSpace(s[i])
  }

  predicate IsWord(s: string) {
    s != "" && forall i | 0 <= i < |s| :: !IsSpace(s[i])
  }

  predicate Spacing(gaps: seq<string>, words: seq<string>, end: string) {
    && |gaps| == |words| && Blank(end)
    && (forall i | 0 <= i < |words| :: Blank(gaps[i]) && IsWord(words[i]) && (i > 0 ==> gaps[i] != ""))
  }

  lemma SpanIs(s: string, space: bool, n: nat)
    requires n <= |s| && (forall i | 0 <= i < n :: IsSpace(s[i]) == space) && (n < |s| ==> IsSpace(s[n]) != space)
    ensures Span(s, space) == n
  {
  }

  lemma FirstWord(gap: string, word: string, tail: string)
    requires Blank(gap) && IsWord(word) && (tail == "" || IsSpace(tail[0]))
    ensures Words(gap + word + tail) == [word] + Words(tail)
  {
    hide IsSpace;
    var line := gap + word + tail;
    assert line[|gap|..] == word + tail;
    SpanIs(line, true, |gap|);
    SpanIs(word + tail, false, |word|);
    assert (word + tail)[..|word|] == word && (word + tail)[|word|..] == tail;
  }

  /** A line's words are found, whatever the blanks around them. */
  lemma {:induction false} WordsFound(gaps: seq<string>, words: seq<string>, end: string)
    requires Spacing(gaps, words, end)
    ensures Words(Spaced(gaps, words, end)) == words
    decreases |words|
  {
    hide Words, IsSpace;
    if words == [] {
      NoWords(end);
    } else {
      var tail := Spaced(gaps[1..], words[1..], end);
      assert |words| > 1 ==> tail[0] == gaps[1][0];
      FirstWord(gaps[0], words[0], tail);
      WordsFound(gaps[1..], words[1..], end);
    }
  }

  lemma NoWords(s: string)
    requires Blank(s)
    ensures Words(s) == []
  {
    SpanIs(s, true, |s|);
  }

  /** Of a line that is no comment and not empty, a route has its kind, path and target in this order,
      whatever follows them; an AUTH line has a path and nothing else. */
  lemma LineParsed(gaps: seq<string>, words: seq<string>, end: string)
    requires Spacing(gaps, words, end)
    requires var line := Spaced(gaps, words, end); line != "" && line[0] !in {'#', '\n', '\r'}
    ensures var e := Parse(Spaced(gaps, words, end));
            && (|words| >= 3 && words[0] == "STATIC" ==> e == Route(words[1], Static, words[2]))
            && (|words| >= 3 && words[0] == "CGI" ==> e == Route(words[1], Cgi, words[2]))
            && (|words| >= 3 && words[0] == "PROXY" ==> e == Route(words[1], Proxy, words[2]))
            && (|words| >= 3 && words[0] !in {"STATIC", "CGI", "PROXY"} ==> e == Unsupported)
            && (|words| < 3 ==> e == if |words| == 2 && words[0] == "AUTH" then Auth(words[1]) else Nothing)
  {
    WordsFound(gaps, words, end);
    hide Words, Spacing, Spaced;
  }

  function Entries(lines: seq<string>): seq<Entry> {
    seq(|lines|, i requires 0 <= i < |lines| => Parse(lines[i]))
  }

  // ---------------------------------------------------------------------------------------------
  // Loading

  /** The rules so far, and whether a line beyond the limit has ended the loading. */
  datatype Config = Config(rules: seq<Rule>, full: bool)

  function Protect(rules: seq<Rule>, path: string): seq<Rule> {
    seq(|rules|, i requires 0 <= i < |rules| =>
      if rules[i].path == path then rules[i].(needsAuth := true) else rules[i])
  }

  function Add(c: Config, e: Entry): Config {
    if c.full then c
    else
      match e
      case Nothing => c
      case Auth(path) => c.(rules := Protect(c.rules, path))
      case Unsupported => c.(full := |c.rules| >= MAX_ROUTES)
      case Route(path, kind, target) =>
        if |c.rules| >= MAX_ROUTES then c.(full := true)
        else c.(rules := c.rules + [Rule(path, kind, target, false)])
  }

  function Load(entries: seq<Entry>): Config {
    if entries == [] then Config([], false)
    else Add(Load(entries[..|entries| - 1]), entries[|entries| - 1])
  }

  // ---------------------------------------------------------------------------------------------
  // Matching

  /** Rule i is the first of those with the longest path that begins the requested path. */
  predicate IsBest(rules: seq<Rule>, path: string, i: nat) {
    && i < |rules| && rules[i].path <= path
    && (forall j | 0 <= j < |rules| && rules[j].path <= path :: |rules[j].path| <= |rules[i].path|)
    && (forall j | 0 <= j < i && rules[j].path <= path :: |rules[j].path| < |rules[i].path|)
  }

  predicate NoMatch(rules: seq<Rule>, path: string) {
    forall j | 0 <= j < |rules| :: !(rules[j].path <= path)
  }

  lemma BestIsUnique(rules: seq<Rule>, path: string, i: nat, j: nat)
    requires IsBest(rules, path, i) && IsBest(rules, path, j)
    ensures i == j
  {
  }

  /** Of two paths that begin the request the longer one wins, and of two equal ones the first. */
  lemma LongerWins(a: Rule, b: Rule, c: Rule, path: string)
    requires a.path < b.path == c.path <= path
    ensures IsBest([a, b, c], path, 1) && IsBest([b, a, c], path, 0)
    ensures IsBest([a, c], path, 1) && IsBest([a], path, 0)
  {
  }

  class RouteTable {
    const routes: array<Rule>
    var count: nat

    ghost predicate Valid()
      reads this
    {
      routes.Length == MAX_ROUTES && count <= MAX_ROUTES
    }

    constructor ()
      ensures Valid() && fresh(routes) && count == 0
    {
      routes := new Rule[MAX_ROUTES](_ => Rule("", Static, "", false));
      count := 0;
    }

    method ProtectRoutes(path: string)
      requires Valid()
      modifies routes
      ensures routes[..count] == Protect(old(routes[..count]), path)
    {
      for i := 0 to count
        invariant forall j | 0 <= j < i :: routes[j] == Protect(old(routes[..count]), path)[j]
        invariant forall j | i <= j < count :: routes[j] == old(routes[j])
      {
        if routes[i].path == path { routes[i] := routes[i].(needsAuth := true); }
      }
    }

    /** One line; `full` when it ends the loading. */
    method LoadLine(line: string) returns (full: bool)
      requires Valid()
      modifies `count, routes
      ensures Valid()
      ensures Config(routes[..count], full) == Add(Config(old(routes[..count]), false), Parse(line))
    {
      hide Parse, Protect;
      full := false;
      match Parse(line) {
        case Nothing =>
        case Auth(path) =>
          ProtectRoutes(path);
        case Unsupported =>
          if count >= MAX_ROUTES { full := true; }
        case Route(path, kind, target) =>
          if count >= MAX_ROUTES { return true; }
          routes[count] := Rule(path, kind, target, false);
          count := count + 1;
      }
    }

    method LoadConfigFile(lines: seq<string>)
      requires Valid()
      modifies this, routes
      ensures Valid()
      ensures routes[..count] == Load(Entries(lines)).rules
    {
      hide Add, Parse;
      count := 0;
      var n := 0;
      assert Load(Entries(lines[..0])) == Config(routes[..count], false);
      while n < |lines|
        invariant Valid() && n <= |lines|
        invariant Load(Entries(lines[..n])) == Config(routes[..count], false)
      {
        LoadNext(lines, n);
        var full := LoadLine(lines[n]);
        n := n + 1;
        if full {
          FullStays(lines, n);
          return;
        }
      }
      assert lines[..n] == lines;
    }

    /** The matching loop of `handle_work`: the index of the best rule, or -1. */
    method Match(path: string) returns (best: int)
      requires Valid()
      ensures -1 <= best < count
      ensures best >= 0 ==> IsBest(routes[..count], path, best)
      ensures best == -1 <==> NoMatch(routes[..count], path)
    {
      best := -1;
      var bestLen := -1;
      for i := 0 to count
        invariant -1 <= best < i
        invariant bestLen == if best == -1 then -1 else |routes[best].path|
        invariant best >= 0 ==> IsBest(routes[..i], path, best)
        invariant best == -1 ==> NoMatch(routes[..i], path)
      {
        if routes[i].path <= path && |routes[i].path| > bestLen {
          best, bestLen := i, |routes[i].path|;
        }
      }
    }
  }

  lemma LoadNext(lines: seq<string>, n: nat)
    requires n < |lines|
    ensures Load(Entries(lines[..n + 1])) == Add(Load(Entries(lines[..n])), Parse(lines[n]))
  {
    var next := Entries(lines[..n + 1]);
    assert next[..n] == Entries(lines[..n]);
  }

  lemma {:induction false} FullStays(lines: seq<string>, n: nat)
    requires n <= |lines| && Load(Entries(lines[..n])).full
    ensures Load(Entries(lines)) == Load(Entries(lines[..n]))
    decreases |lines| - n
  {
    if n == |lines| {
      assert lines[..n] == lines;
    } else {
      LoadNext(lines, n);
      FullStays(lines, n + 1);
    }
  }

  // ---------------------------------------------------------------------------------------------
  // The order of the lines

  function Routes(entries: seq<Entry>): nat {
    if entries == [] then 0
    else Routes(entries[..|entries| - 1]) + if entries[|entries| - 1].Route? then 1 else 0
  }

  /** The loading never meets the limit. */
  predicate Fits(entries: seq<Entry>) {
    Routes(entries) < 32 || (Routes(entries) == 32 && Unsupported !in entries)
  }

  predicate DistinctPaths(entries: seq<Entry>) {
    forall i, j | 0 <= i < j < |entries| && entries[i].Route? && entries[j].Route? :: entries[i].path != entries[j].path
  }

  /** No AUTH line comes before the route it is for. */
  predicate AuthsFollow(entries: seq<Entry>) {
    forall i, j | 0 <= i < j < |entries| && entries[i].Auth? && entries[j].Route? :: entries[i].path != entries[j].path
  }

  lemma {:induction false} LoadCount(entries: seq<Entry>)
    requires Fits(entries)
    ensures !Load(entries).full && |Load(entries).rules| == Routes(entries)
  {
    if entries == [] {
    } else {
      var n := |entries| - 1;
      assert forall e | e in entries[..n] :: e in entries;
      LoadCount(entries[..n]);
    }
  }

  /** With 32 routes loaded, the next line of three words ends the loading, whatever follows it. */
  lemma {:induction false} LimitEnds(entries: seq<Entry>, i: nat)
    requires i < |entries| && Fits(entries[..i]) && Routes(entries[..i]) == 32
    requires entries[i].Route? || entries[i].Unsupported?
    ensures Load(entries) == Config(Load(entries[..i]).rules, true)
    decreases |entries|
  {
    var n := |entries| - 1;
    LoadCount(entries[..i]);
    if i == n {
    } else {
      assert entries[..n][..i] == entries[..i];
      LimitEnds(entries[..n], i);
    }
  }

  /** There are never more than 32 rules, and there are 32 when the limit is met. */
  lemma {:induction false} RulesBounded(entries: seq<Entry>)
    ensures var c := Load(entries); |c.rules| <= 32 && (c.full ==> |c.rules| == 32)
  {
    if entries == [] {
    } else {
      RulesBounded(entries[..|entries| - 1]);
    }
  }

  lemma PrefixFits(entries: seq<Entry>)
    requires entries != [] && Fits(entries)
    ensures Fits(entries[..|entries| - 1])
  {
  }

  /** Entry j is the route of rule r, and r asks for a password exactly when an AUTH line for its
      path comes after it. */
  predicate From(entries: seq<Entry>, j: nat, r: Rule) {
    && j < |entries| && entries[j] == Route(r.path, r.kind, r.target)
    && (r.needsAuth <==> Auth(r.path) in entries[j + 1..])
  }

  predicate Called(entries: seq<Entry>, r: Rule) {
    exists j: nat | j < |entries| :: From(entries, j, r)
  }

  function Flip(r: Rule): Rule {
    r.(needsAuth := !r.needsAuth)
  }

  /** What one more entry, e, makes of a rule's being called for. */
  lemma CalledSnoc(front: seq<Entry>, e: Entry, r: Rule)
    ensures Called(front + [e], r) <==>
            if e == Auth(r.path) then r.needsAuth && (Called(front, r) || Called(front, Flip(r)))
            else Called(front, r) || (e == Route(r.path, r.kind, r.target) && !r.needsAuth)
  {
    var entries, n := front + [e], |front|;
    forall j: nat | j < n ensures entries[j] == front[j] && entries[j + 1..] == front[j + 1..] + [e] {}
    if Called(entries, r) {
      var j: nat :| j < |entries| && From(entries, j, r);
      if j < n { assert From(front, j, r) || From(front, j, Flip(r)); }
    }
    if Called(front, r) {
      var j: nat :| j < n && From(front, j, r);
      assert From(entries, j, r) || (e == Auth(r.path) && !r.needsAuth);
    }
    if Called(front, Flip(r)) {
      var j: nat :| j < n && From(front, j, Flip(r));
      assert e == Auth(r.path) && r.needsAuth ==> From(entries, j, r);
    }
    if e == Route(r.path, r.kind, r.target) && !r.needsAuth { assert From(entries, n, r); }
  }

  /** What one more entry makes of a rule's being loaded. */
  lemma LoadedSnoc(rules: seq<Rule>, e: Entry, r: Rule)
    requires e.Route? ==> |rules| < MAX_ROUTES
    ensures r in Add(Config(rules, false), e).rules <==>
            if e == Auth(r.path) then r.needsAuth && (r in rules || Flip(r) in rules)
            else r in rules || (e == Route(r.path, r.kind, r.target) && !r.needsAuth)
  {
    if e.Auth? {
      var after := Protect(rules, e.path);
      assert r in rules ==> exists i :: 0 <= i < |rules| && rules[i] == r && after[i] in after;
      assert Flip(r) in rules ==> exists i :: 0 <= i < |rules| && rules[i] == Flip(r) && after[i] in after;
    }
  }

  /** The rules loaded are exactly the routes of the file, each asking for a password exactly when
      an AUTH line for its path follows it. */
  lemma {:induction false} LoadedExactly(entries: seq<Entry>, r: Rule)
    requires Fits(entries)
    ensures r in Load(entries).rules <==> Called(entries, r)
    decreases |entries|
  {
    if entries == [] {
    } else {
      var n := |entries| - 1;
      var front, e := entries[..n], entries[n];
      PrefixFits(entries);
      LoadCount(front);
      LoadedExactly(front, r);
      LoadedExactly(front, Flip(r));
      CalledSnoc(front, e, r);
      assert front + [e] == entries;
      LoadedSnoc(Load(front).rules, e, r);
    }
  }

  lemma SamePrefix(a: string, b: string, s: string)
    requires a <= s && b <= s && |a| == |b|
    ensures a == b
  {
  }

  /** The rule chosen among the rules of a table, if any. */
  ghost predicate Chosen(rules: seq<Rule>, path: string, r: Option<Rule>) {
    if r.None? then NoMatch(rules, path) else exists i: nat :: IsBest(rules, path, i) && rules[i] == r.value
  }

  lemma {:induction false} LoadDistinct(entries: seq<Entry>, i: nat, j: nat)
    requires Fits(entries) && DistinctPaths(entries)
    requires i < j < |Load(entries).rules|
    ensures Load(entries).rules[i].path != Load(entries).rules[j].path
    decreases |entries|
  {
    var n := |entries| - 1;
    var front, before := entries[..n], Load(entries[..n]).rules;
    PrefixFits(entries);
    LoadCount(front);
    LoadCount(entries);
    if j < |before| {
      LoadDistinct(front, i, j);
    } else {
      LoadedExactly(front, before[i]);
      var k: nat :| k < n && From(front, k, before[i]);
      assert entries[k].path != entries[n].path;
    }
  }

  /** Where no AUTH line comes too early, what is called for does not depend on the order. */
  lemma CalledInOrder(entries: seq<Entry>, r: Rule)
    requires AuthsFollow(entries)
    ensures Called(entries, r) <==>
            Route(r.path, r.kind, r.target) in entries && (r.needsAuth <==> Auth(r.path) in entries)
  {
    var route := Route(r.path, r.kind, r.target);
    forall j: nat | j < |entries| && entries[j] == route
      ensures From(entries, j, r) <==> (r.needsAuth <==> Auth(r.path) in entries)
    {
      assert entries == entries[..j] + [entries[j]] + entries[j + 1..];
      assert Auth(r.path) !in entries[..j];
    }
    if route in entries {
      var j: nat :| j < |entries| && entries[j] == route;
      assert From(entries, j, r) <==> (r.needsAuth <==> Auth(r.path) in entries);
    }
  }

  lemma SameMembers(a: seq<Entry>, b: seq<Entry>)
    requires multiset(a) == multiset(b)
    ensures forall e :: e in a <==> e in b
  {
    forall e ensures e in a <==> e in b { assert e in multiset(a) <==> e in multiset(b); }
  }

  function Without(a: seq<Entry>, i: nat): (r: seq<Entry>)
    requires i < |a|
    ensures |r| == |a| - 1 && forall k | 0 <= k < |r| :: r[k] == if k < i then a[k] else a[k + 1]
  {
    a[..i] + a[i + 1..]
  }

  lemma WithoutMultiset(a: seq<Entry>, i: nat)
    requires i < |a|
    ensures multiset(Without(a, i)) == multiset(a) - multiset{a[i]}
  {
    assert a == a[..i] + [a[i]] + a[i + 1..];
  }

  lemma WithoutLast(a: seq<Entry>, i: nat)
    requires i < |a| - 1
    ensures var w := Without(a, i);
            |w| == |a| - 1 && w[|w| - 1] == a[|a| - 1] && w[..|w| - 1] == Without(a[..|a| - 1], i)
  {
    assert Without(a, i) == Without(a[..|a| - 1], i) + [a[|a| - 1]];
  }

  lemma {:induction false} WithoutRoutes(a: seq<Entry>, i: nat)
    requires i < |a|
    ensures Routes(a) == Routes(Without(a, i)) + if a[i].Route? then 1 else 0
    decreases |a|
  {
    var n := |a| - 1;
    if i == n {
      assert Without(a, i) == a[..n];
    } else {
      WithoutRoutes(a[..n], i);
      WithoutLast(a, i);
      hide Without;
    }
  }

  lemma WithoutDistinct(a: seq<Entry>, i: nat)
    requires i < |a| && DistinctPaths(a)
    ensures DistinctPaths(Without(a, i))
    ensures a[i].Route? ==> forall e | e in Without(a, i) && e.Route? :: e.path != a[i].path
  {
  }

  lemma {:induction false} RoutesPermute(a: seq<Entry>, b: seq<Entry>)
    requires multiset(a) == multiset(b)
    ensures Routes(a) == Routes(b)
    decreases |b|
  {
    SameMembers(a, b);
    if b == [] {
      assert |multiset(a)| == 0;
    } else {
      var n := |b| - 1;
      assert b[n] in b;
      var i :| 0 <= i < |a| && a[i] == b[n];
      WithoutMultiset(a, i);
      WithoutMultiset(b, n);
      assert Without(b, n) == b[..n];
      WithoutRoutes(a, i);
      WithoutRoutes(b, n);
      hide Without, Routes;
      RoutesPermute(Without(a, i), b[..n]);
    }
  }

  /** Whether the paths are distinct does not depend on the order. */
  lemma {:induction false} DistinctPermute(a: seq<Entry>, b: seq<Entry>)
    requires multiset(a) == multiset(b) && DistinctPaths(a)
    ensures DistinctPaths(b)
    decreases |b|
  {
    if b == [] {
    } else {
      var n := |b| - 1;
      SameMembers(a, b);
      assert b[n] in b;
      var i :| 0 <= i < |a| && a[i] == b[n];
      WithoutMultiset(a, i);
      WithoutMultiset(b, n);
      assert Without(b, n) == b[..n];
      WithoutDistinct(a, i);
      var rest, front := Without(a, i), b[..n];
      hide Without;
      DistinctPermute(rest, front);
      SameMembers(rest, front);
      LastDistinct(b, n);
    }
  }

  lemma LastDistinct(b: seq<Entry>, n: nat)
    requires |b| == n + 1 && DistinctPaths(b[..n])
    requires b[n].Route? ==> forall e | e in b[..n] && e.Route? :: e.path != b[n].path
    ensures DistinctPaths(b)
  {
  }

  /** Reordering the lines of a configuration whose paths are distinct, with the AUTH lines after
      their routes before and after, changes neither the rule chosen for any request nor whether
      it asks for a password. */
  lemma OrderDoesNotMatter(a: seq<Entry>, b: seq<Entry>, path: string, r: Option<Rule>)
    requires multiset(a) == multiset(b) && Fits(a) && DistinctPaths(a)
    requires AuthsFollow(a) && AuthsFollow(b)
    ensures Chosen(Load(a).rules, path, r) <==> Chosen(Load(b).rules, path, r)
  {
    DistinctPermute(a, b);
    RoutesPermute(a, b);
    SameMembers(a, b);
    forall x: Rule ensures x in Load(a).rules <==> x in Load(b).rules {
      LoadedExactly(a, x);
      LoadedExactly(b, x);
      CalledInOrder(a, x);
      CalledInOrder(b, x);
    }
    UniquePaths(a);
    UniquePaths(b);
    hide Load, IsBest, Fits, DistinctPaths, AuthsFollow;
    if Chosen(Load(a).rules, path, r) { ChosenMoves(Load(a).rules, Load(b).rules, path, r); }
    if Chosen(Load(b).rules, path, r) { ChosenMoves(Load(b).rules, Load(a).rules, path, r); }
  }

  predicate Unique(rules: seq<Rule>) {
    forall i, j | 0 <= i < j < |rules| :: rules[i].path != rules[j].path
  }

  lemma UniquePaths(entries: seq<Entry>)
    requires Fits(entries) && DistinctPaths(entries)
    ensures Unique(Load(entries).rules)
  {
    forall i, j | 0 <= i < j < |Load(entries).rules|
      ensures Load(entries).rules[i].path != Load(entries).rules[j].path
    {
      LoadDistinct(entries, i, j);
    }
  }

  /** With distinct paths the choice does not depend on the order of the rules. */
  lemma ChosenMoves(s: seq<Rule>, t: seq<Rule>, path: string, r: Option<Rule>)
    requires (forall x: Rule :: x in s <==> x in t) && Unique(t)
    requires Chosen(s, path, r)
    ensures Chosen(t, path, r)
  {
    if r.None? {
      forall j | 0 <= j < |t| ensures !(t[j].path <= path) { assert t[j] in s; }
    } else {
      var i: nat :| IsBest(s, path, i) && s[i] == r.value;
      assert r.value in t;
      var k :| 0 <= k < |t| && t[k] == r.value;
      forall j | 0 <= j < |t| && t[j].path <= path
        ensures |t[j].path| <= |t[k].path| && (j != k ==> |t[j].path| < |t[k].path|)
      {
        assert t[j] in s;
        if |t[j].path| == |t[k].path| { SamePrefix(t[j].path, t[k].path, path); }
      }
      assert IsBest(t, path, k);
    }
  }

  /** An AUTH line in front of its route is lost: the two orders load different tables. */
  lemma EarlyAuthIsLost(path: string, kind: Kind, target: string)
    ensures Load([Auth(path), Route(path, kind, target)]).rules == [Rule(path, kind, target, false)]
    ensures Load([Route(path, kind, target), Auth(path)]).rules == [Rule(path, kind, target, true)]
  {
    var auth, route := Auth(path), Route(path, kind, target);
    assert [auth, route][..1] == [auth] && [route, auth][..1] == [route];
    assert [auth][..0] == [] && [route][..0] == [];
    assert Load([auth]) == Config([], false);
    assert Load([route]) == Config([Rule(path, kind, target, false)], false);
    assert Load([route, auth]) == Add(Load([route]), auth);
  }
}
