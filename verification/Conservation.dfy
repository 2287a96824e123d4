/** Where a measured record is found in the report of a whole box: models/scope.py gives it to scopes,
engine.py shows, skips, excludes or ignores these and lists what no scope claims. */
module Conservation {
  import opened Wrappers
  import opened Seqs
  import A = Accounting
  import O = Ownership

  /** One evaluation: settings, subject scopes with their selectors, the matcher's result and what the
      mapping ignores. */
  datatype Case = Case(settings: A.Settings, scopes: seq<A.Scope>, selectors: A.Scope -> O.Scope,
                       matches: Option<A.Matches>, ignored: seq<A.Scope>)

  /** Scopes are distinct and the matcher places every service. */
  ghost predicate Sound(c: Case) {
    && Distinct(c.scopes)
    && if c.matches.None? then c.ignored == [] else A.Partitions(c.matches.value, Filter(c.scopes, A.OfKind(A.Service)), c.ignored)
  }

  function Shown(c: Case): seq<A.Scope> {
    A.Books(c.settings, c.scopes, c.matches).shown
  }

  function Selectors(c: Case): seq<O.Scope> {
    Map(c.scopes, c.selectors)
  }

  predicate OutsideProfile(c: Case, s: A.Scope) {
    c.settings.types.Some? && s.kind.Service? && s.serviceType !in c.settings.types.value
  }

  /** The scope that this one is linked to has a partner. */
  predicate LinkedToMatched(c: Case, s: A.Scope) {
    s.id in c.settings.peer && c.matches.Some? && exists p | p in c.matches.value.pairs :: p.id == c.settings.peer[s.id]
  }

  /** In a migration step: a new service that is linked to no matched one. */
  predicate OfAnotherStep(c: Case, s: A.Scope) {
    && c.settings.step && s.kind.Service? && c.matches.Some? && !LinkedToMatched(c, s)
    && exists u | u in c.matches.value.unmatched :: u.scope == s && u.newService
  }

  /** A service without a result: outside the profile, or, with a baseline, of another step or ignored. */
  predicate Silent(c: Case, s: A.Scope) {
    OutsideProfile(c, s) || OfAnotherStep(c, s) || s in c.ignored
  }

  // ----- Which scopes are shown -----

  lemma {:induction false} RoutedMembers(us: seq<A.Unmatched>, other: A.Unmatched -> bool, answer: bool)
    ensures forall s :: s in A.Routed(us, other, answer) <==> exists u | u in us :: u.scope == s && other(u) == answer
  {
    if us != [] {
      var before, last := us[..|us| - 1], us[|us| - 1];
      RoutedMembers(before, other, answer);
      assert forall u :: u in us <==> u in before || u == last;
    }
  }

  lemma AtMostOne(a: seq<A.Scope>, b: seq<A.Scope>, c: seq<A.Scope>, d: seq<A.Scope>, all: seq<A.Scope>, s: A.Scope)
    requires multiset(a) + multiset(b) + multiset(c) + multiset(d) == multiset(all) && Distinct(all)
    ensures s in a ==> s in all && s !in b && s !in c && s !in d
    ensures s in all && s !in b && s !in c && s !in d ==> s in a
  {
    DistinctMeansOnce(all);
    assert multiset(all)[s] == multiset(a)[s] + multiset(b)[s] + multiset(c)[s] + multiset(d)[s];
    assert s in all <==> s in multiset(all);
    assert s in a <==> s in multiset(a);
    assert s in b <==> s in multiset(b);
    assert s in c <==> s in multiset(c);
    assert s in d <==> s in multiset(d);
  }

  lemma ExcludedAre(c: Case, s: A.Scope)
    ensures s in A.Books(c.settings, c.scopes, c.matches).excluded <==> OfAnotherStep(c, s)
  {
    if c.matches.Some? {
      var m := c.matches.value;
      RoutedMembers(m.unmatched, A.Elsewhere(c.settings, A.MatchedIds(m)), true);
      forall u: A.Unmatched | u.scope == s
        ensures A.OtherStep(c.settings, A.MatchedIds(m), u) <==> c.settings.step && s.kind.Service? && u.newService && !LinkedToMatched(c, s)
      {}
    }
  }

  /** What is shown is in the profile, what is skipped is not. */
  lemma ProfileDecides(c: Case)
    ensures forall s | s in Shown(c) :: !OutsideProfile(c, s)
    ensures forall s | s in A.Skipped(c.settings, c.scopes, c.matches) :: OutsideProfile(c, s)
  {
    var t := c.settings;
    match c.matches {
      case None =>
        FilterMembers(c.scopes, A.Wanted(t));
        FilterMembers(c.scopes, A.Unwanted(t));
      case Some(m) =>
        FilterMembers(A.Candidates(t, m), A.Wanted(t));
        FilterMembers(A.Candidates(t, m), A.Unwanted(t));
        FilterMembers(c.scopes, A.OfKind(A.Layer1));
    }
  }

  /** A scope has a result exactly when it is a subject scope and not silent. */
  lemma ShownExactly(c: Case, s: A.Scope)
    requires Sound(c)
    ensures s in Shown(c) <==> s in c.scopes && !Silent(c, s)
  {
    var books := A.Books(c.settings, c.scopes, c.matches);
    A.EveryScopeIsAccounted(c.settings, c.scopes, c.matches, c.ignored);
    AtMostOne(books.shown, A.Skipped(c.settings, c.scopes, c.matches), books.excluded, c.ignored, c.scopes, s);
    ExcludedAre(c, s);
    ProfileDecides(c);
  }

  function SilentScopes(c: Case): set<A.Scope> {
    set s | s in c.scopes && Silent(c, s)
  }

  lemma ShownScopes(c: Case)
    requires Sound(c)
    ensures Elements(Shown(c)) == Elements(c.scopes) - SilentScopes(c)
  {
    forall s ensures s in Elements(Shown(c)) <==> s in Elements(c.scopes) - SilentScopes(c) {
      ShownExactly(c, s);
    }
  }

  // ----- BGP -----

  ghost predicate BgpShown(c: Case, facts: seq<O.Bgp>, r: O.Bgp) {
    exists s | s in Shown(c) :: r in O.SelectBgp(c.selectors(s), facts)
  }

  ghost predicate BgpListed(c: Case, facts: seq<O.Bgp>, r: O.Bgp) {
    r in O.UnassignedBgp(facts, Selectors(c))
  }

  function BgpOwners(c: Case, r: O.Bgp): set<A.Scope> {
    set s | s in c.scopes && O.BgpOwner(c.selectors(s), r)
  }

  lemma BgpPlaces(c: Case, facts: seq<O.Bgp>, r: O.Bgp)
    requires r in facts
    ensures BgpShown(c, facts, r) <==> exists s | s in Shown(c) :: O.BgpOwner(c.selectors(s), r)
    ensures BgpListed(c, facts, r) <==> BgpOwners(c, r) == {}
  {
    forall o { O.SelectBgpExactly(o, facts, r); }
    if BgpOwners(c, r) != {} {
      var s :| s in BgpOwners(c, r);
      assert c.selectors(s) in Selectors(c);
    }
    if o :| o in Selectors(c) && O.BgpOwner(o, r) {
      var s :| s in c.scopes && c.selectors(s) == o;
      assert s in BgpOwners(c, r);
    }
  }

  lemma BgpShownIs(c: Case, facts: seq<O.Bgp>, r: O.Bgp)
    requires Sound(c) && r in facts
    ensures !BgpShown(c, facts, r) <==> BgpOwners(c, r) <= SilentScopes(c)
  {
    BgpPlaces(c, facts, r);
    ShownScopes(c);
    if s :| s in Shown(c) && O.BgpOwner(c.selectors(s), r) {
      assert s in Elements(Shown(c)) && s in BgpOwners(c, r) && s !in SilentScopes(c);
    }
    if s :| s in BgpOwners(c, r) && s !in SilentScopes(c) {
      assert s in Elements(Shown(c));
    }
  }

  /** Main theorem for BGP: a record is shown or listed, never both, and it is in neither place exactly
      when it has owners and all of them are silent; whoever shows it has it in the view or counts it. */
  lemma WhereABgpRecordIs(c: Case, facts: seq<O.Bgp>, r: O.Bgp)
    requires Sound(c) && r in facts
    ensures !(BgpShown(c, facts, r) && BgpListed(c, facts, r))
    ensures !BgpShown(c, facts, r) && !BgpListed(c, facts, r) <==> BgpOwners(c, r) != {} && BgpOwners(c, r) <= SilentScopes(c)
    ensures forall s | s in Shown(c) && r in O.SelectBgp(c.selectors(s), facts) :: O.ShownIn(O.SelectBgp(c.selectors(s), facts), O.BgpKey(), r)
  {
    BgpPlaces(c, facts, r);
    BgpShownIs(c, facts, r);
    forall s | s in Shown(c) && r in O.SelectBgp(c.selectors(s), facts) {
      O.BgpShownOrAmbiguous(facts, c.selectors(s), r);
    }
  }

  // ----- BFD -----

  ghost predicate BfdShown(c: Case, facts: seq<O.Bfd>, r: O.Bfd) {
    exists s | s in Shown(c) :: r in O.SelectBfd(c.selectors(s), facts)
  }

  ghost predicate BfdListed(c: Case, facts: seq<O.Bfd>, r: O.Bfd) {
    r in O.UnassignedBfd(facts, Selectors(c))
  }

  function BfdOwners(c: Case, facts: seq<O.Bfd>, r: O.Bfd): set<A.Scope> {
    set s | s in c.scopes && O.BfdOwner(c.selectors(s), r, facts)
  }

  function CoreLoopbacks(c: Case): set<A.Scope> {
    set s | s in c.scopes && c.selectors(s).serviceType == "Core" && c.selectors(s).serviceSubtype == "loopback"
  }

  lemma BfdPlaces(c: Case, facts: seq<O.Bfd>, r: O.Bfd)
    requires r in facts
    ensures BfdShown(c, facts, r) <==> exists s | s in Shown(c) :: O.BfdOwner(c.selectors(s), r, facts)
    ensures BfdListed(c, facts, r) <==> BfdOwners(c, facts, r) <= CoreLoopbacks(c)
  {
    forall o { O.SelectBfdExactly(o, facts, r); }
    if s :| s in BfdOwners(c, facts, r) && s !in CoreLoopbacks(c) {
      assert c.selectors(s) in Selectors(c);
    }
    if o :| o in Selectors(c) && !O.CoreLoopback(o) && O.BfdOwner(o, r, facts) {
      var s :| s in c.scopes && c.selectors(s) == o;
      assert s in BfdOwners(c, facts, r) && s !in CoreLoopbacks(c);
    }
  }

  lemma BfdShownIs(c: Case, facts: seq<O.Bfd>, r: O.Bfd)
    requires Sound(c) && r in facts
    ensures !BfdShown(c, facts, r) <==> BfdOwners(c, facts, r) <= SilentScopes(c)
  {
    BfdPlaces(c, facts, r);
    ShownScopes(c);
    if s :| s in Shown(c) && O.BfdOwner(c.selectors(s), r, facts) {
      assert s in Elements(Shown(c)) && s in BfdOwners(c, facts, r) && s !in SilentScopes(c);
    }
    if s :| s in BfdOwners(c, facts, r) && s !in SilentScopes(c) {
      assert s in Elements(Shown(c));
    }
  }

  /** The same for BFD, where a Core loopback's claim does not keep a record off the list. */
  lemma WhereABfdRecordIs(c: Case, facts: seq<O.Bfd>, r: O.Bfd)
    requires Sound(c) && r in facts
    ensures
      var owners := BfdOwners(c, facts, r);
      && (BfdShown(c, facts, r) && BfdListed(c, facts, r) <==> !(owners <= SilentScopes(c)) && owners <= CoreLoopbacks(c))
      && (!BfdShown(c, facts, r) && !BfdListed(c, facts, r) <==> !(owners <= CoreLoopbacks(c)) && owners <= SilentScopes(c))
    ensures forall s | s in Shown(c) && r in O.SelectBfd(c.selectors(s), facts) :: O.ShownIn(O.SelectBfd(c.selectors(s), facts), O.BfdKey(), r)
  {
    BfdPlaces(c, facts, r);
    BfdShownIs(c, facts, r);
    forall s | s in Shown(c) && r in O.SelectBfd(c.selectors(s), facts) {
      O.BfdShownOrAmbiguous(facts, c.selectors(s), r);
    }
  }

  // ----- Routes -----

  /** A scope shows a route of this key. */
  ghost predicate RouteShown(c: Case, facts: seq<O.Route>, r: O.Route) {
    exists s | s in Shown(c) :: O.KeyOf(r.intent) in O.RouteView(c.selectors(s), facts)
  }

  ghost predicate RouteListed(c: Case, facts: seq<O.Route>, r: O.Route) {
    r in O.UnassignedRoutes(facts, Selectors(c))
  }

  function RouteOwners(c: Case, r: O.Route): set<A.Scope> {
    set s | s in c.scopes && O.RouteOwner(c.selectors(s), r)
  }

  lemma KeyIsShown(o: O.Scope, facts: seq<O.Route>, r: O.Route)
    requires r in facts
    ensures O.KeyOf(r.intent) in O.RouteView(o, facts) <==> O.RouteOwner(o, r)
  {
    O.RouteViewShows(o, facts);
    O.WantsExactly(o, r);
    if O.Wants(o, O.KeyOf(r.intent)) {
      assert r in O.WantedRoutes(o, facts);
    }
  }

  lemma RoutePlaces(c: Case, facts: seq<O.Route>, r: O.Route)
    requires r in facts
    ensures RouteShown(c, facts, r) <==> exists s | s in Shown(c) :: O.RouteOwner(c.selectors(s), r)
    ensures RouteListed(c, facts, r) <==> RouteOwners(c, r) == {}
  {
    forall o ensures O.KeyOf(r.intent) in O.RouteView(o, facts) <==> O.RouteOwner(o, r) { KeyIsShown(o, facts, r); }
    forall o { O.WantsExactly(o, r); }
    if RouteOwners(c, r) != {} {
      var s :| s in RouteOwners(c, r);
      assert c.selectors(s) in Selectors(c);
    }
    if o :| o in Selectors(c) && O.RouteOwner(o, r) {
      var s :| s in c.scopes && c.selectors(s) == o;
      assert s in RouteOwners(c, r);
    }
  }

  /** And for routes: what is shown is the key. */
  lemma WhereARouteIs(c: Case, facts: seq<O.Route>, r: O.Route)
    requires Sound(c) && r in facts
    ensures !(RouteShown(c, facts, r) && RouteListed(c, facts, r))
    ensures !RouteShown(c, facts, r) && !RouteListed(c, facts, r) <==> RouteOwners(c, r) != {} && RouteOwners(c, r) <= SilentScopes(c)
  {
    RoutePlaces(c, facts, r);
    ShownScopes(c);
    if s :| s in Shown(c) && O.RouteOwner(c.selectors(s), r) {
      assert s in Elements(Shown(c)) && s in RouteOwners(c, r) - SilentScopes(c);
    }
    if s :| s in RouteOwners(c, r) && s !in SilentScopes(c) {
      assert s in Elements(Shown(c));
    }
  }

  /** The gap is real: a BGP peer of the only service, which the profile leaves out, is neither shown nor listed. */
  lemma ProfileHidesAPeer(types: set<string>, r: O.Bgp, s: A.Scope, o: O.Scope)
    requires s.kind.Service? && s.serviceType !in types && O.BgpOwner(o, r)
    ensures
      var c := Case(A.Settings(Some(types), false, map[]), [s], _ => o, None, []);
      Sound(c) && !BgpShown(c, [r], r) && !BgpListed(c, [r], r)
  {
    var c := Case(A.Settings(Some(types), false, map[]), [s], _ => o, None, []);
    WhereABgpRecordIs(c, [r], r);
    assert s in BgpOwners(c, r);
  }
}
