/** Multicast routes by covering prefix: assign_sources of checks/multicast.py, which scans the
prefixes sorted by length, and the Longest Match rule (section 5.2.4.3 of RFC 1812) it implements. */
module Multicast {
  import opened Wrappers
  import opened Seqs
  import opened Strings
  import opened Ip

  /** A prefix that parsed, with its text. */
  datatype Entry = Entry(net: Net, text: string)

  /** What the texts mean: the source address of a route key and the network of a prefix. */
  datatype Parser = Parser(source: string -> Option<Addr>, network: string -> Option<Net>)

  // ----- The code: a stable sort, longest first, and a scan -----

  function Insert(s: seq<Entry>, x: Entry): seq<Entry> {
    if s == [] || s[|s| - 1].net.plen >= x.net.plen then s + [x]
    else Insert(s[..|s| - 1], x) + [s[|s| - 1]]
  }

  function SortByLength(s: seq<Entry>): seq<Entry> {
    if s == [] then [] else Insert(SortByLength(s[..|s| - 1]), s[|s| - 1])
  }

  function FirstCover(s: seq<Entry>, covers: Net -> bool): Option<Entry> {
    if s == [] then None
    else
      var before, last := FirstCover(s[..|s| - 1], covers), s[|s| - 1];
      if before.Some? then before else if covers(last.net) then Some(last) else None
  }

  function Networks(parser: Parser, prefixes: seq<string>): seq<Entry> {
    if prefixes == [] then []
    else
      var before, last := Networks(parser, prefixes[..|prefixes| - 1]), prefixes[|prefixes| - 1];
      var net := parser.network(last);
      if net.Some? then before + [Entry(net.value, last)] else before
  }

  // ----- The rule: the first among the longest covering prefixes -----

  function LongestMatch(s: seq<Entry>, covers: Net -> bool): Option<Entry> {
    if s == [] then None
    else
      var before, last := LongestMatch(s[..|s| - 1], covers), s[|s| - 1];
      if covers(last.net) && (before.None? || last.net.plen > before.value.net.plen) then Some(last) else before
  }

  /** Covers the address; nothing that covers it is longer, and nothing before it is as long. */
  ghost predicate IsLongest(s: seq<Entry>, covers: Net -> bool, i: int) {
    && 0 <= i < |s| && covers(s[i].net)
    && (forall j | 0 <= j < |s| && covers(s[j].net) :: s[j].net.plen <= s[i].net.plen)
    && (forall j | 0 <= j < i && covers(s[j].net) :: s[j].net.plen < s[i].net.plen)
  }

  lemma StaysLongest(s: seq<Entry>, x: Entry, covers: Net -> bool, i: int)
    requires IsLongest(s, covers, i) && !(covers(x.net) && x.net.plen > s[i].net.plen)
    ensures IsLongest(s + [x], covers, i)
  {}

  lemma BecomesLongest(s: seq<Entry>, x: Entry, covers: Net -> bool)
    requires covers(x.net) && forall j | 0 <= j < |s| && covers(s[j].net) :: s[j].net.plen < x.net.plen
    ensures IsLongest(s + [x], covers, |s|)
  {}

  /** There is a choice exactly when something covers the address, and it is the first of the
      longest. */
  lemma {:induction false} LongestMatchIsLongest(s: seq<Entry>, covers: Net -> bool)
    ensures var r := LongestMatch(s, covers);
            if r.None? then forall i | 0 <= i < |s| :: !covers(s[i].net)
            else exists i :: IsLongest(s, covers, i) && s[i] == r.value
  {
    if s != [] {
      var before, last := s[..|s| - 1], s[|s| - 1];
      assert s == before + [last];
      LongestMatchIsLongest(before, covers);
      if LongestMatch(s, covers) != LongestMatch(before, covers) {
        BecomesLongest(before, last, covers);
      } else if LongestMatch(before, covers).Some? {
        var i :| IsLongest(before, covers, i) && before[i] == LongestMatch(before, covers).value;
        StaysLongest(before, last, covers, i);
      }
    }
  }

  lemma LongestAmong(s: seq<Entry>, covers: Net -> bool)
    ensures LongestMatch(s, covers).None? <==> forall e | e in s :: !covers(e.net)
    ensures LongestMatch(s, covers).Some? ==>
              var best := LongestMatch(s, covers).value;
              best in s && covers(best.net) && forall e | e in s && covers(e.net) :: e.net.plen <= best.net.plen
  {}

  ghost predicate Descending(s: seq<Entry>) {
    forall i, j | 0 <= i < j < |s| :: s[i].net.plen >= s[j].net.plen
  }

  lemma {:induction false} FirstCoverIsIn(s: seq<Entry>, covers: Net -> bool)
    requires FirstCover(s, covers).Some?
    ensures FirstCover(s, covers).value in s
  {
    if FirstCover(s[..|s| - 1], covers).Some? {
      FirstCoverIsIn(s[..|s| - 1], covers);
    }
  }

  lemma {:induction false} InsertMembers(s: seq<Entry>, x: Entry)
    ensures forall e :: e in Insert(s, x) <==> e in s || e == x
  {
    if s != [] && s[|s| - 1].net.plen < x.net.plen {
      InsertMembers(s[..|s| - 1], x);
      assert s == s[..|s| - 1] + [s[|s| - 1]];
    }
  }

  lemma {:induction false} InsertKeepsOrder(s: seq<Entry>, x: Entry)
    requires Descending(s)
    ensures Descending(Insert(s, x))
  {
    if s != [] && s[|s| - 1].net.plen < x.net.plen {
      var front, last := s[..|s| - 1], s[|s| - 1];
      InsertKeepsOrder(front, x);
      InsertMembers(front, x);
      var r := Insert(front, x);
      assert forall i | 0 <= i < |r| :: r[i] in r;
      assert forall e | e in r :: e.net.plen >= last.net.plen;
    }
  }

  lemma {:induction false} SortOrders(s: seq<Entry>)
    ensures Descending(SortByLength(s)) && forall e :: e in SortByLength(s) <==> e in s
  {
    if s != [] {
      SortOrders(s[..|s| - 1]);
      InsertKeepsOrder(SortByLength(s[..|s| - 1]), s[|s| - 1]);
      InsertMembers(SortByLength(s[..|s| - 1]), s[|s| - 1]);
      assert s == s[..|s| - 1] + [s[|s| - 1]];
    }
  }

  lemma FirstCoverSnoc(s: seq<Entry>, x: Entry, covers: Net -> bool)
    ensures FirstCover(s + [x], covers) == if FirstCover(s, covers).Some? then FirstCover(s, covers) else if covers(x.net) then Some(x) else None
  {}

  /** Inserting a prefix changes the scan only when it is longer than what the scan found. */
  lemma {:induction false} InsertedIsFound(s: seq<Entry>, x: Entry, covers: Net -> bool)
    requires Descending(s)
    ensures var found := FirstCover(s, covers);
            FirstCover(Insert(s, x), covers) ==
            if covers(x.net) && (found.None? || x.net.plen > found.value.net.plen) then Some(x) else found
  {
    if s == [] || s[|s| - 1].net.plen >= x.net.plen {
      FirstCoverSnoc(s, x, covers);
      if FirstCover(s, covers).Some? {
        FirstCoverIsIn(s, covers);
      }
    } else {
      var front, last := s[..|s| - 1], s[|s| - 1];
      InsertedIsFound(front, x, covers);
      FirstCoverSnoc(Insert(front, x), last, covers);
    }
  }

  /** The fast form refines the rule: scanning the sorted prefixes finds the longest match. */
  lemma {:induction false} ScanIsLongestMatch(s: seq<Entry>, covers: Net -> bool)
    ensures FirstCover(SortByLength(s), covers) == LongestMatch(s, covers)
  {
    if s != [] {
      ScanIsLongestMatch(s[..|s| - 1], covers);
      SortOrders(s[..|s| - 1]);
      InsertedIsFound(SortByLength(s[..|s| - 1]), s[|s| - 1], covers);
    }
  }

  // ----- The assignment -----

  function Holding(a: Addr): Net -> bool {
    (n: Net) => n.Contains(a)
  }

  /** The prefix each route goes to. */
  function Choice(parser: Parser, prefixes: seq<string>): string -> Option<string> {
    (key: string) =>
      var source := parser.source(key);
      if source.None? then None
      else
        var longest := LongestMatch(Networks(parser, prefixes), Holding(source.value));
        if longest.Some? then Some(longest.value.text) else None
  }

  function GoesTo(choice: string -> Option<string>, p: string): string -> bool {
    (key: string) => choice(key) == Some(p)
  }

  function Assigned(choice: string -> Option<string>, prefixes: seq<string>, keys: seq<string>): map<string, seq<string>> {
    map p | p in prefixes :: Filter(keys, GoesTo(choice, p))
  }

  lemma {:induction false} NetworksAreParsed(parser: Parser, prefixes: seq<string>)
    ensures forall e :: e in Networks(parser, prefixes) <==> e.text in prefixes && parser.network(e.text) == Some(e.net)
  {
    if prefixes != [] {
      NetworksAreParsed(parser, prefixes[..|prefixes| - 1]);
      assert prefixes == prefixes[..|prefixes| - 1] + [prefixes[|prefixes| - 1]];
    }
  }

  method BuildNetworks(parser: Parser, prefixes: seq<string>) returns (networks: seq<Entry>)
    ensures networks == SortByLength(Networks(parser, prefixes))
  {
    networks := [];
    for i := 0 to |prefixes|
      invariant networks == Networks(parser, prefixes[..i])
    {
      assert prefixes[..i + 1][..i] == prefixes[..i];
      var net := parser.network(prefixes[i]);
      if net.None? {
        continue;
      }
      networks := networks + [Entry(net.value, prefixes[i])];
    }
    assert prefixes[..|prefixes|] == prefixes;
    networks := SortByLength(networks);
  }

  method Scan(networks: seq<Entry>, covers: Net -> bool) returns (r: Option<Entry>)
    ensures r == FirstCover(networks, covers)
  {
    for i := 0 to |networks|
      invariant FirstCover(networks[..i], covers) == None
    {
      assert networks[..i + 1] == networks[..i] + [networks[i]];
      FirstCoverSnoc(networks[..i], networks[i], covers);
      if covers(networks[i].net) {
        CoverStays(networks, covers, i + 1);
        return Some(networks[i]);
      }
    }
    assert networks[..|networks|] == networks;
    r := None;
  }

  lemma {:induction false} CoverStays(s: seq<Entry>, covers: Net -> bool, k: nat)
    requires k <= |s| && FirstCover(s[..k], covers).Some?
    ensures FirstCover(s, covers) == FirstCover(s[..k], covers)
  {
    if k < |s| {
      assert s[..|s| - 1][..k] == s[..k];
      CoverStays(s[..|s| - 1], covers, k);
    } else {
      assert s[..k] == s;
    }
  }

  method ChoosePrefix(parser: Parser, prefixes: seq<string>, networks: seq<Entry>, key: string) returns (p: Option<string>)
    requires networks == SortByLength(Networks(parser, prefixes))
    ensures p == Choice(parser, prefixes)(key)
  {
    var source := parser.source(key);
    if source.None? {
      return None;
    }
    var found := Scan(networks, Holding(source.value));
    ScanIsLongestMatch(Networks(parser, prefixes), Holding(source.value));
    p := if found.Some? then Some(found.value.text) else None;
  }

  predicate AllIn<R>(keys: seq<string>, table: map<string, R>) {
    forall k | k in keys :: k in table
  }

  /** Routes with their keys. */
  function Routes<R>(table: map<string, R>, keys: seq<string>): seq<(string, R)>
    requires AllIn(keys, table)
  {
    if keys == [] then [] else Routes(table, keys[..|keys| - 1]) + [(keys[|keys| - 1], table[keys[|keys| - 1]])]
  }

  /** The same lists, of routes instead of keys. */
  ghost predicate Carries<R>(table: map<string, R>, byKey: map<string, seq<string>>, lists: map<string, seq<(string, R)>>) {
    lists.Keys == byKey.Keys && forall p | p in lists :: AllIn(byKey[p], table) && lists[p] == Routes(table, byKey[p])
  }

  lemma CarriesStep<R>(table: map<string, R>, byKey: map<string, seq<string>>, lists: map<string, seq<(string, R)>>, p: string, k: string)
    requires Carries(table, byKey, lists) && p in lists && k in table
    ensures Carries(table, byKey[p := byKey[p] + [k]], lists[p := lists[p] + [(k, table[k])]])
  {
    assert (byKey[p] + [k])[..|byKey[p]|] == byKey[p];
  }

  /** The table is walked in the order of its keys, as `sorted` gives them. */
  method AssignSources<R>(parser: Parser, table: map<string, R>, prefixes: seq<string>) returns (lists: map<string, seq<(string, R)>>)
    ensures Carries(table, Assigned(Choice(parser, prefixes), prefixes, SortedOf(table.Keys)), lists)
  {
    var networks := BuildNetworks(parser, prefixes);
    var keys := SortSet(table.Keys);
    ListsIsUnique(keys, SortedOf(table.Keys), table.Keys);
    ghost var choice := Choice(parser, prefixes);
    lists := map p | p in prefixes :: [];
    ghost var byKey := Assigned(choice, prefixes, keys[..0]);
    for i := 0 to |keys|
      invariant byKey == Assigned(choice, prefixes, keys[..i])
      invariant Carries(table, byKey, lists)
    {
      assert keys[i] in multiset(keys);
      ChoiceIsAPrefix(parser, prefixes, keys[i]);
      AssignStep(choice, prefixes, keys, i);
      var p := ChoosePrefix(parser, prefixes, networks, keys[i]);
      if p.Some? {
        CarriesStep(table, byKey, lists, p.value, keys[i]);
        lists := lists[p.value := lists[p.value] + [(keys[i], table[keys[i]])]];
        byKey := byKey[p.value := byKey[p.value] + [keys[i]]];
      }
    }
    assert keys[..|keys|] == keys;
  }

  lemma AssignStep(choice: string -> Option<string>, prefixes: seq<string>, keys: seq<string>, i: nat)
    requires i < |keys| && (choice(keys[i]).Some? ==> choice(keys[i]).value in prefixes)
    ensures
      var before, after := Assigned(choice, prefixes, keys[..i]), Assigned(choice, prefixes, keys[..i + 1]);
      match choice(keys[i])
      case None => after == before
      case Some(p) => after == before[p := before[p] + [keys[i]]]
  {
    var before, after := Assigned(choice, prefixes, keys[..i]), Assigned(choice, prefixes, keys[..i + 1]);
    forall p | p in prefixes ensures after[p] == if choice(keys[i]) == Some(p) then before[p] + [keys[i]] else before[p] {
      FilterStep(keys, i, GoesTo(choice, p));
      assert before[p] + [] == before[p];
    }
    match choice(keys[i])
    case None => assert after == before;
    case Some(p) => assert after == before[p := before[p] + [keys[i]]];
  }

  ghost predicate Covers(parser: Parser, p: string, key: string) {
    parser.network(p).Some? && parser.source(key).Some? && parser.network(p).value.Contains(parser.source(key).value)
  }

  lemma ChoiceIsAPrefix(parser: Parser, prefixes: seq<string>, key: string)
    ensures Choice(parser, prefixes)(key).None? <==> forall p | p in prefixes :: !Covers(parser, p, key)
    ensures Choice(parser, prefixes)(key).Some? ==>
              var best := Choice(parser, prefixes)(key).value;
              && best in prefixes && Covers(parser, best, key)
              && forall p | p in prefixes && Covers(parser, p, key) :: parser.network(p).value.plen <= parser.network(best).value.plen
  {
    if parser.source(key).Some? {
      var s, a := Networks(parser, prefixes), parser.source(key).value;
      NetworksAreParsed(parser, prefixes);
      LongestAmong(s, Holding(a));
      forall p | p in prefixes && Covers(parser, p, key) ensures Entry(parser.network(p).value, p) in s {}
    }
  }

  /** Main theorem: a covered route is in exactly one list, exactly once, that of a longest prefix
      covering it; a route that no prefix covers is in none. */
  lemma EveryCoveredRouteOnce(parser: Parser, table: set<string>, prefixes: seq<string>, key: string)
    requires key in table
    ensures
      var lists := Assigned(Choice(parser, prefixes), prefixes, SortedOf(table));
      if exists p | p in prefixes :: Covers(parser, p, key) then
        exists best | best in prefixes && Covers(parser, best, key) ::
          && multiset(lists[best])[key] == 1
          && (forall p | p in prefixes && Covers(parser, p, key) :: parser.network(p).value.plen <= parser.network(best).value.plen)
          && forall p | p in prefixes && p != best :: key !in lists[p]
      else forall p | p in prefixes :: key !in lists[p]
  {
    var keys := SortedOf(table);
    ChoiceIsAPrefix(parser, prefixes, key);
    forall p | p in prefixes
      ensures key in Filter(keys, GoesTo(Choice(parser, prefixes), p)) ==> Choice(parser, prefixes)(key) == Some(p)
    {
      FilterMembers(keys, GoesTo(Choice(parser, prefixes), p));
    }
    var choice := Choice(parser, prefixes)(key);
    if choice.Some? {
      FilterCount(keys, GoesTo(Choice(parser, prefixes), choice.value), key);
      assert multiset(keys)[key] == multiset(table)[key] == 1;
    }
  }

  lemma {:induction false} FilterCount(s: seq<string>, p: string -> bool, x: string)
    requires p(x)
    ensures multiset(Filter(s, p))[x] == multiset(s)[x]
  {
    if s != [] {
      FilterCount(s[..|s| - 1], p, x);
      assert s == s[..|s| - 1] + [s[|s| - 1]];
    }
  }

  /** Nothing else is ever assigned. */
  lemma OnlyTableRoutes(parser: Parser, table: set<string>, prefixes: seq<string>, p: string, key: string)
    requires p in prefixes && key in Assigned(Choice(parser, prefixes), prefixes, SortedOf(table))[p]
    ensures key in table && Covers(parser, p, key)
  {
    var keys := SortedOf(table);
    FilterMembers(keys, GoesTo(Choice(parser, prefixes), p));
    ChoiceIsAPrefix(parser, prefixes, key);
    assert key in multiset(keys);
  }
}
