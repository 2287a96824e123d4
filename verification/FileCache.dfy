/** The lock-free file cache of users.py (UserStore) and inventory.py (InventorySource).

Any number of threads run `get`/`load` while writers replace the file.  Every shared access is
one atomic action: stat, reading the field `_cache`, testing for existence, reading the text and
publishing the new `(key, data)` tuple.  Thread interleavings are all sequences of such actions. */
module FileCache {
  import opened Wrappers

  /** The cache key: (mtime_ns, size, inode). */
  datatype Key = Key(mtime: int, size: int, inode: int)

  /** What the path names at one instant. */
  datatype File = Absent | Present(key: Key, text: string)

  /** One user of the protocol.  `whenMissing` is the data a missing file stands for: an empty
      account table in UserStore, nothing (an OSError) in InventorySource. */
  datatype Source<!D> = Source(whenMissing: Option<D>, parse: string -> Option<D>) {
    /** The data a reader gets from a quiet file, None when it raises. */
    function Meaning(f: File): Option<D> {
      match f
      case Absent => whenMissing
      case Present(_, text) => parse(text)
    }

    /** A read of the text that raises. */
    predicate Unreadable(f: File) {
      f.Absent? || parse(f.text).None?
    }
  }

  function KeyOf(f: File): Option<Key> {
    if f.Absent? then None else Some(f.key)
  }

  datatype Cached<+D> = Cached(key: Option<Key>, data: D)

  /** Progress of one call.  `begin` and `end` are positions in the history of the file: the
      version current at the call's stat and the one current when it finished. */
  datatype Call<+D> =
    | Statted(begin: nat, key: Option<Key>)
    | Missed(begin: nat, key: Option<Key>)
    | Opening(begin: nat, key: Option<Key>)
    | Loaded(begin: nat, key: Option<Key>, data: D)
    | Returned(begin: nat, end: nat, data: D)
    | Raised(begin: nat, end: nat)

  /** `history` lists every version of the file, the current one last. */
  datatype State<+D> = State(history: seq<File>, cache: Option<Cached<D>>, calls: map<nat, Call<D>>)

  datatype Action = Install(file: File) | Stat(t: nat) | Look(t: nat) | Probe(t: nat) | Read(t: nat) | Publish(t: nat)

  predicate Enabled<D>(src: Source<D>, s: State<D>, a: Action) {
    s.history != [] &&
    match a
    case Install(_) => true
    case Stat(t) => t !in s.calls
    case Look(t) => t in s.calls && s.calls[t].Statted?
    case Probe(t) => t in s.calls && s.calls[t].Missed? && src.whenMissing.Some?
    case Read(t) => t in s.calls && (s.calls[t].Opening? || (s.calls[t].Missed? && src.whenMissing.None?))
    case Publish(t) => t in s.calls && s.calls[t].Loaded?
  }

  function Do<D>(src: Source<D>, s: State<D>, a: Action): State<D>
    requires Enabled(src, s, a)
  {
    var now := |s.history| - 1;
    var file := s.history[now];
    match a
    case Install(f) => s.(history := s.history + [f])
    case Stat(t) =>
      if file.Absent? && src.whenMissing.None? then s.(calls := s.calls[t := Raised(now, now)])
      else s.(calls := s.calls[t := Statted(now, KeyOf(file))])
    case Look(t) =>
      var c := s.calls[t];
      if s.cache.Some? && s.cache.value.key == c.key && c.key.Some? then
        s.(calls := s.calls[t := Returned(c.begin, now, s.cache.value.data)])
      else
        s.(calls := s.calls[t := Missed(c.begin, c.key)])
    case Probe(t) =>
      var c := s.calls[t];
      if file.Absent? then s.(calls := s.calls[t := Loaded(c.begin, c.key, src.whenMissing.value)])
      else s.(calls := s.calls[t := Opening(c.begin, c.key)])
    case Read(t) =>
      var c := s.calls[t];
      if src.Unreadable(file) then s.(calls := s.calls[t := Raised(c.begin, now)])
      else s.(calls := s.calls[t := Loaded(c.begin, c.key, src.parse(file.text).value)])
    case Publish(t) =>
      var c := s.calls[t];
      s.(cache := Some(Cached(c.key, c.data)), calls := s.calls[t := Returned(c.begin, now, c.data)])
  }

  predicate Executable<D>(src: Source<D>, s: State<D>, run: seq<Action>)
    decreases |run|
  {
    run == [] || (Enabled(src, s, run[0]) && Executable(src, Do(src, s, run[0]), run[1..]))
  }

  function Exec<D>(src: Source<D>, s: State<D>, run: seq<Action>): State<D>
    requires Executable(src, s, run)
    decreases |run|
  {
    if run == [] then s else Exec(src, Do(src, s, run[0]), run[1..])
  }

  function Initial<D>(file: File): State<D> {
    State([file], None, map[])
  }

  /** `f` carries a key no version in `h` has carried. */
  predicate FreshKey(h: seq<File>, f: File) {
    f.Present? ==> forall i | 0 <= i < |h| && h[i].Present? :: h[i].key != f.key
  }

  /** The operating assumption of the protocol: no key is ever reused. */
  predicate FreshInstalls(h: seq<File>, run: seq<Action>)
    decreases |run|
  {
    run == [] ||
    if run[0].Install? then FreshKey(h, run[0].file) && FreshInstalls(h + [run[0].file], run[1..])
    else FreshInstalls(h, run[1..])
  }

  // ----- Invariant -----

  ghost predicate KeysUnique(h: seq<File>) {
    forall i, j | 0 <= i < j < |h| && h[i].Present? && h[j].Present? :: h[i].key != h[j].key
  }

  /** A key comes back only with what the file has meant ever since the key was first seen, as far as
      it could be read at all. */
  ghost predicate KeysTellContent<D>(src: Source<D>, h: seq<File>) {
    forall i, m, j | 0 <= i <= m < j < |h| && h[i].Present? && KeyOf(h[i]) == KeyOf(h[j]) && src.Meaning(h[m]).Some? ::
      src.Meaning(h[m]) == src.Meaning(h[j])
  }

  /** The file held content meaning `d` at an instant between two positions of its history. */
  ghost predicate HeldBetween<D>(src: Source<D>, h: seq<File>, from: int, to: int, d: D) {
    exists j :: 0 <= from <= j <= to < |h| && src.Meaning(h[j]) == Some(d)
  }

  ghost predicate UnreadableBetween<D>(src: Source<D>, h: seq<File>, from: int, to: int) {
    exists j :: 0 <= from <= j <= to < |h| && src.Unreadable(h[j])
  }

  /** A cached tuple may pair the key of one version with the data of a later one, never of an
      earlier one. */
  ghost predicate CacheSound<D>(src: Source<D>, h: seq<File>, c: Cached<D>) {
    c.key.Some? ==>
      exists i :: 0 <= i < |h| && KeyOf(h[i]) == c.key && HeldBetween(src, h, i, |h| - 1, c.data)
  }

  ghost predicate CallSound<D>(src: Source<D>, h: seq<File>, c: Call<D>) {
    match c
    case Statted(b, k) => b < |h| && KeyOf(h[b]) == k
    case Missed(b, k) => b < |h| && KeyOf(h[b]) == k
    case Opening(b, k) => b < |h| && KeyOf(h[b]) == k
    case Loaded(b, k, d) => b < |h| && KeyOf(h[b]) == k && HeldBetween(src, h, b, |h| - 1, d)
    case Returned(b, e, d) => HeldBetween(src, h, b, e, d)
    case Raised(b, e) => UnreadableBetween(src, h, b, e)
  }

  ghost predicate Inv<D>(src: Source<D>, s: State<D>) {
    && s.history != []
    && (s.cache.Some? ==> CacheSound(src, s.history, s.cache.value))
    && forall t | t in s.calls :: CallSound(src, s.history, s.calls[t])
  }

  /** Installing a version never invalidates what is known about earlier instants. */
  lemma InstallKeepsFacts<D>(src: Source<D>, s: State<D>, f: File)
    requires Inv(src, s)
    ensures Inv(src, s.(history := s.history + [f]))
  {
    var h, g := s.history, s.history + [f];
    forall from, to, d: D | HeldBetween(src, h, from, to, d)
      ensures HeldBetween(src, g, from, to, d) && HeldBetween(src, g, from, |g| - 1, d)
    {
      var j :| 0 <= from <= j <= to < |h| && src.Meaning(h[j]) == Some(d);
      assert g[j] == h[j];
    }
    forall from, to | UnreadableBetween(src, h, from, to) ensures UnreadableBetween(src, g, from, to) {
      var j :| 0 <= from <= j <= to < |h| && src.Unreadable(h[j]);
      assert g[j] == h[j];
    }
    if s.cache.Some? && s.cache.value.key.Some? {
      var c := s.cache.value;
      var i :| 0 <= i < |h| && KeyOf(h[i]) == c.key && HeldBetween(src, h, i, |h| - 1, c.data);
      assert KeyOf(g[i]) == c.key && HeldBetween(src, g, i, |g| - 1, c.data);
    }
    forall t | t in s.calls ensures CallSound(src, g, s.calls[t]) {
      assert CallSound(src, h, s.calls[t]);
    }
  }

  /** A hit: the cached data was read at this call's stat or later, or it means the same as the
      version the stat saw, whichever thread published it. */
  lemma HitIsInsideCall<D>(src: Source<D>, s: State<D>, t: nat)
    requires Inv(src, s) && KeysTellContent(src, s.history) && Enabled(src, s, Look(t))
    requires s.cache.Some? && s.cache.value.key == s.calls[t].key && s.calls[t].key.Some?
    ensures HeldBetween(src, s.history, s.calls[t].begin, |s.history| - 1, s.cache.value.data)
  {
    var h, d, b := s.history, s.cache.value.data, s.calls[t].begin;
    assert CallSound(src, h, s.calls[t]);
    var i :| 0 <= i < |h| && KeyOf(h[i]) == s.cache.value.key && HeldBetween(src, h, i, |h| - 1, d);
    var m :| 0 <= i <= m < |h| && src.Meaning(h[m]) == Some(d);
    if m < b {
      assert src.Meaning(h[b]) == Some(d);
    }
  }

  lemma ReaderKeepsInv<D>(src: Source<D>, s: State<D>, a: Action)
    requires Inv(src, s) && KeysTellContent(src, s.history) && Enabled(src, s, a) && !a.Install?
    ensures var u := Do(src, s, a); u.history == s.history && u.calls == s.calls[a.t := u.calls[a.t]]
    ensures CallSound(src, s.history, Do(src, s, a).calls[a.t])
    ensures Do(src, s, a).cache.Some? ==> CacheSound(src, s.history, Do(src, s, a).cache.value)
  {
    var now := |s.history| - 1;
    if !a.Stat? {
      assert CallSound(src, s.history, s.calls[a.t]);
    }
    match a {
      case Look(t) =>
        if s.cache.Some? && s.cache.value.key == s.calls[t].key && s.calls[t].key.Some? {
          HitIsInsideCall(src, s, t);
        }
      case Probe(t) =>
        assert s.history[now].Absent? ==> src.Meaning(s.history[now]) == Some(src.whenMissing.value);
      case Read(t) =>
        assert !src.Unreadable(s.history[now]) ==> src.Meaning(s.history[now]).Some?;
      case Publish(t) =>
      case Stat(t) =>
        assert s.history[now].Absent? ==> src.Unreadable(s.history[now]);
    }
  }

  lemma StepKeepsInv<D>(src: Source<D>, s: State<D>, a: Action)
    requires Inv(src, s) && KeysTellContent(src, s.history) && Enabled(src, s, a)
    ensures Inv(src, Do(src, s, a))
  {
    if a.Install? {
      InstallKeepsFacts(src, s, a.file);
    } else {
      ReaderKeepsInv(src, s, a);
    }
  }

  /** History only grows. */
  lemma {:induction false} HistoryGrows<D>(src: Source<D>, s: State<D>, run: seq<Action>)
    requires Executable(src, s, run)
    ensures s.history <= Exec(src, s, run).history
    decreases |run|
  {
    if run != [] {
      HistoryGrows(src, Do(src, s, run[0]), run[1..]);
    }
  }

  lemma {:induction false} RunKeepsInv<D>(src: Source<D>, s: State<D>, run: seq<Action>)
    requires Inv(src, s) && Executable(src, s, run) && KeysTellContent(src, Exec(src, s, run).history)
    ensures Inv(src, Exec(src, s, run))
    decreases |run|
  {
    if run != [] {
      HistoryGrows(src, s, run);
      StepKeepsInv(src, s, run[0]);
      RunKeepsInv(src, Do(src, s, run[0]), run[1..]);
    }
  }

  // ----- Main theorem -----

  /** A call that returned gives what the file held at an instant inside that call, and a call that
      raised saw an unreadable file at such an instant. */
  ghost predicate Linear<D>(src: Source<D>, h: seq<File>, c: Call<D>) {
    match c
    case Returned(b, e, d) => HeldBetween(src, h, b, e, d)
    case Raised(b, e) => UnreadableBetween(src, h, b, e)
    case _ => true
  }

  ghost predicate AllLinear<D>(src: Source<D>, s: State<D>) {
    forall t | t in s.calls :: Linear(src, s.history, s.calls[t])
  }

  /** An interleaving in which the writers install just the versions of `h`. */
  ghost predicate Installs<D>(src: Source<D>, h: seq<File>, run: seq<Action>)
    requires h != []
  {
    var start: State<D> := Initial(h[0]);
    Executable(src, start, run) && Exec(src, start, run).history == h
  }

  ghost predicate AlwaysLinear<D>(src: Source<D>, h: seq<File>)
    requires h != []
  {
    forall run | Installs(src, h, run) :: AllLinear(src, Exec(src, Initial(h[0]), run))
  }

  lemma TellingKeysSuffice<D>(src: Source<D>, h: seq<File>, run: seq<Action>)
    requires h != [] && KeysTellContent(src, h) && Installs(src, h, run)
    ensures AllLinear(src, Exec(src, Initial(h[0]), run))
  {
    var end := Exec(src, Initial(h[0]), run);
    RunKeepsInv(src, Initial(h[0]), run);
    assert forall t | t in end.calls :: CallSound(src, h, end.calls[t]);
  }

  lemma TellingKeysAreNeeded<D>(src: Source<D>, h: seq<File>) returns (run: seq<Action>)
    requires h != [] && !KeysTellContent(src, h)
    ensures Installs(src, h, run) && !AllLinear(src, Exec(src, Initial(h[0]), run))
  {
    var i, m, j :| 0 <= i <= m < j < |h| && h[i].Present? && KeyOf(h[i]) == KeyOf(h[j]) && src.Meaning(h[m]).Some? &&
                   src.Meaning(h[m]) != src.Meaning(h[j]);
    run := StaleRun(src, h, i, m, j);
    assert !Linear(src, h, Exec(src, Initial(h[0]), run).calls[1]);
  }

  /** The exact condition: all interleavings over a history are linearizable if and only if its keys
      tell its content. */
  lemma LinearizableExactly<D>(src: Source<D>, h: seq<File>)
    requires h != []
    ensures AlwaysLinear(src, h) <==> KeysTellContent(src, h)
  {
    if KeysTellContent(src, h) {
      forall run | Installs(src, h, run) ensures AllLinear(src, Exec(src, Initial(h[0]), run)) {
        TellingKeysSuffice(src, h, run);
      }
    } else {
      var run := TellingKeysAreNeeded(src, h);
    }
  }

  lemma {:induction false} FreshKeysAreUnique<D>(src: Source<D>, s: State<D>, run: seq<Action>)
    requires Executable(src, s, run) && KeysUnique(s.history) && FreshInstalls(s.history, run)
    ensures KeysUnique(Exec(src, s, run).history)
    decreases |run|
  {
    if run != [] {
      FreshKeysAreUnique(src, Do(src, s, run[0]), run[1..]);
    }
  }

  /** Under every interleaving of readers with writers that never reuse a key, every finished call is
      linearizable. */
  lemma Linearizable<D>(src: Source<D>, file: File, run: seq<Action>, t: nat)
    requires Executable(src, Initial(file), run) && FreshInstalls([file], run)
    requires t in Exec(src, Initial(file), run).calls
    ensures
      var end := Exec(src, Initial(file), run);
      match end.calls[t]
      case Returned(b, e, d) => exists j :: b <= j <= e < |end.history| && src.Meaning(end.history[j]) == Some(d)
      case Raised(b, e) => exists j :: b <= j <= e < |end.history| && src.Unreadable(end.history[j])
      case _ => true
  {
    var start: State<D> := Initial(file);
    var end := Exec(src, start, run);
    HistoryGrows(src, start, run);
    FreshKeysAreUnique(src, start, run);
    LinearizableExactly(src, end.history);
    assert Installs(src, end.history, run);
    assert Linear(src, end.history, end.calls[t]);
  }

  // ----- Why a call raises -----

  /** The file was there and then gone. */
  ghost predicate Vanished(h: seq<File>, from: int, to: int) {
    exists i, j :: 0 <= from <= i < j <= to < |h| && h[i].Present? && h[j].Absent?
  }

  ghost predicate MeaninglessBetween<D>(src: Source<D>, h: seq<File>, from: int, to: int) {
    exists j :: 0 <= from <= j <= to < |h| && src.Meaning(h[j]).None?
  }

  ghost predicate HasReason<D>(src: Source<D>, h: seq<File>, c: Call<D>) {
    match c
    case Statted(b, _) => b < |h|
    case Missed(b, _) => b < |h|
    case Opening(b, _) => exists i :: b <= i < |h| && h[i].Present?
    case Raised(b, e) => MeaninglessBetween(src, h, b, e) || Vanished(h, b, e)
    case _ => true
  }

  ghost predicate Reasons<D>(src: Source<D>, s: State<D>) {
    s.history != [] && forall t | t in s.calls :: HasReason(src, s.history, s.calls[t])
  }

  lemma ReasonsStand<D>(src: Source<D>, h: seq<File>, f: File, c: Call<D>)
    requires HasReason(src, h, c)
    ensures HasReason(src, h + [f], c)
  {
    var g := h + [f];
    assert forall i | 0 <= i < |h| :: g[i] == h[i];
    match c {
      case Raised(b, e) =>
        if MeaninglessBetween(src, h, b, e) {
          var j :| 0 <= b <= j <= e < |h| && src.Meaning(h[j]).None?;
          assert src.Meaning(g[j]).None?;
        } else {
          var i, j :| 0 <= b <= i < j <= e < |h| && h[i].Present? && h[j].Absent?;
          assert g[i].Present? && g[j].Absent?;
        }
      case Opening(b, _) =>
        var i :| b <= i < |h| && h[i].Present?;
        assert g[i].Present?;
      case _ =>
    }
  }

  lemma StepKeepsReasons<D>(src: Source<D>, s: State<D>, a: Action)
    requires Reasons(src, s) && Enabled(src, s, a)
    ensures Reasons(src, Do(src, s, a))
  {
    var h, now := s.history, |s.history| - 1;
    match a {
      case Install(f) =>
        forall t | t in s.calls ensures HasReason(src, h + [f], s.calls[t]) {
          ReasonsStand(src, h, f, s.calls[t]);
        }
      case Stat(_) =>
        assert h[now].Absent? && src.whenMissing.None? ==> src.Meaning(h[now]).None?;
      case Read(t) =>
        assert HasReason(src, h, s.calls[t]);
        assert src.Unreadable(h[now]) && (h[now].Present? || src.whenMissing.None?) ==> src.Meaning(h[now]).None?;
      case Probe(t) =>
        assert HasReason(src, h, s.calls[t]);
      case _ =>
    }
  }

  lemma {:induction false} RunKeepsReasons<D>(src: Source<D>, s: State<D>, run: seq<Action>)
    requires Reasons(src, s) && Executable(src, s, run)
    ensures Reasons(src, Exec(src, s, run))
    decreases |run|
  {
    if run != [] {
      StepKeepsReasons(src, s, run[0]);
      RunKeepsReasons(src, Do(src, s, run[0]), run[1..]);
    }
  }

  /** Over every interleaving, reused keys or not, a call raises only when the file meant nothing at an
      instant inside the call, or vanished between two such instants. */
  lemma RaisesForAReason<D>(src: Source<D>, file: File, run: seq<Action>, t: nat)
    requires Executable(src, Initial(file), run) && t in Exec(src, Initial(file), run).calls
    ensures
      var end := Exec(src, Initial(file), run);
      match end.calls[t]
      case Raised(b, e) =>
        || (exists j :: b <= j <= e < |end.history| && src.Meaning(end.history[j]).None?)
        || (exists i, j :: b <= i < j <= e < |end.history| && end.history[i].Present? && end.history[j].Absent?)
      case _ => true
  {
    var start: State<D> := Initial(file);
    RunKeepsReasons(src, start, run);
    assert HasReason(src, Exec(src, start, run).history, Exec(src, start, run).calls[t]);
  }

  // ----- The run that fails -----

  ghost predicate Reaches<D>(src: Source<D>, file: File, run: seq<Action>, s: State<D>) {
    Executable(src, Initial(file), run) && Exec(src, Initial(file), run) == s
  }

  lemma {:induction false} ExecSnoc<D>(src: Source<D>, s: State<D>, run: seq<Action>, a: Action)
    requires Executable(src, s, run) && Enabled(src, Exec(src, s, run), a)
    ensures Executable(src, s, run + [a]) && Exec(src, s, run + [a]) == Do(src, Exec(src, s, run), a)
    decreases |run|
  {
    if run == [] {
      assert run + [a] == [a] && [a][1..] == [];
    } else {
      assert (run + [a])[1..] == run[1..] + [a];
      ExecSnoc(src, Do(src, s, run[0]), run[1..], a);
    }
  }

  lemma Next<D>(src: Source<D>, file: File, run: seq<Action>, s: State<D>, a: Action, t: State<D>) returns (next: seq<Action>)
    requires Reaches(src, file, run, s) && Enabled(src, s, a) && Do(src, s, a) == t
    ensures Reaches(src, file, next, t)
  {
    ExecSnoc(src, Initial(file), run, a);
    next := run + [a];
  }

  /** Writers install further versions of `h`, until there are `n`. */
  lemma {:induction false} InstallUpTo<D>(src: Source<D>, h: seq<File>, run: seq<Action>, s: State<D>, n: nat) returns (next: seq<Action>)
    requires 0 < |s.history| <= n <= |h| && s.history <= h && Reaches(src, h[0], run, s)
    ensures Reaches(src, h[0], next, s.(history := h[..n]))
    decreases n - |s.history|
  {
    var k := |s.history|;
    if k == n {
      assert s.history == h[..n];
      next := run;
    } else {
      var t := s.(history := s.history + [h[k]]);
      next := Next(src, h[0], run, s, Install(h[k]), t);
      assert t.history == h[..k + 1];
      next := InstallUpTo(src, h, next, t, n);
    }
  }

  /** A call that missed loads what the file means now. */
  lemma LoadNow<D>(src: Source<D>, file: File, run: seq<Action>, s: State<D>) returns (next: seq<Action>)
    requires Reaches(src, file, run, s) && s.history != [] && 0 in s.calls && s.calls[0].Missed?
    requires src.Meaning(s.history[|s.history| - 1]).Some?
    ensures var c, d := s.calls[0], src.Meaning(s.history[|s.history| - 1]).value;
            Reaches(src, file, next, s.(calls := s.calls[0 := Loaded(c.begin, c.key, d)]))
  {
    var c, f := s.calls[0], s.history[|s.history| - 1];
    var loaded := s.(calls := s.calls[0 := Loaded(c.begin, c.key, src.Meaning(f).value)]);
    if src.whenMissing.Some? && f.Absent? {
      next := Next(src, file, run, s, Probe(0), loaded);
    } else if src.whenMissing.Some? {
      var opening := s.(calls := s.calls[0 := Opening(c.begin, c.key)]);
      next := Next(src, file, run, s, Probe(0), opening);
      assert opening.calls[0 := loaded.calls[0]] == loaded.calls;
      next := Next(src, file, next, opening, Read(0), loaded);
    } else {
      next := Next(src, file, run, s, Read(0), loaded);
    }
  }

  /** Thread 0 stats version i, reads version m and publishes. */
  lemma FillRun<D>(src: Source<D>, h: seq<File>, i: nat, m: nat) returns (run: seq<Action>)
    requires i <= m < |h| && h[i].Present? && src.Meaning(h[m]).Some?
    ensures var d := src.Meaning(h[m]).value;
            Reaches(src, h[0], run, State(h[..m + 1], Some(Cached(KeyOf(h[i]), d)), map[0 := Returned(i, m, d)]))
  {
    var d, key := src.Meaning(h[m]).value, KeyOf(h[i]);
    var start: State<D> := Initial(h[0]);
    run := InstallUpTo(src, h, [], start, i + 1);
    var s1 := start.(history := h[..i + 1]);
    var s2 := s1.(calls := map[0 := Statted(i, key)]);
    run := Next(src, h[0], run, s1, Stat(0), s2);
    var s3 := s1.(calls := map[0 := Missed(i, key)]);
    run := Next(src, h[0], run, s2, Look(0), s3);
    run := InstallUpTo(src, h, run, s3, m + 1);
    var s4 := s3.(history := h[..m + 1]);
    run := LoadNow(src, h[0], run, s4);
    var s5 := s4.(calls := map[0 := Loaded(i, key, d)]);
    assert s4.calls[0 := Loaded(i, key, d)] == s5.calls;
    run := Next(src, h[0], run, s5, Publish(0), State(h[..m + 1], Some(Cached(key, d)), map[0 := Returned(i, m, d)]));
  }

  /** Thread 1 then stats version j, which has the key of version i again, and hits. */
  lemma StaleRun<D>(src: Source<D>, h: seq<File>, i: nat, m: nat, j: nat) returns (run: seq<Action>)
    requires i <= m < j < |h| && h[i].Present? && KeyOf(h[i]) == KeyOf(h[j]) && src.Meaning(h[m]).Some?
    ensures Installs(src, h, run)
    ensures var end := Exec(src, Initial(h[0]), run);
            1 in end.calls && end.calls[1] == Returned(j, j, src.Meaning(h[m]).value)
  {
    var d, key := src.Meaning(h[m]).value, KeyOf(h[i]);
    var cache := Some(Cached(key, d));
    run := FillRun(src, h, i, m);
    run := InstallUpTo(src, h, run, State(h[..m + 1], cache, map[0 := Returned(i, m, d)]), j + 1);
    var s1 := State(h[..j + 1], cache, map[0 := Returned(i, m, d)]);
    var s2 := s1.(calls := s1.calls[1 := Statted(j, key)]);
    run := Next(src, h[0], run, s1, Stat(1), s2);
    var s3 := s1.(calls := s1.calls[1 := Returned(j, j, d)]);
    assert s2.calls[1 := Returned(j, j, d)] == s3.calls;
    run := Next(src, h[0], run, s2, Look(1), s3);
    run := InstallUpTo(src, h, run, s3, |h|);
    assert h[..|h|] == h;
  }

  function Verbatim(): Source<string> {
    Source(Some(""), text => Some(text))
  }

  /** Two replacements that bring a key back, as renaming over the path allows: the readers are safe
      just when the three texts are the same. */
  lemma ReusedKeyIsServedStale(k1: Key, k2: Key, a: string, b: string, c: string)
    requires k1 != k2
    ensures AlwaysLinear(Verbatim(), [Present(k1, a), Present(k2, b), Present(k1, c)]) <==> a == b == c
  {
    var h := [Present(k1, a), Present(k2, b), Present(k1, c)];
    LinearizableExactly(Verbatim(), h);
    assert KeysTellContent(Verbatim(), h) ==> a == b == c by {
      assert KeyOf(h[0]) == KeyOf(h[2]) && Verbatim().Meaning(h[0]) == Some(a);
      assert Verbatim().Meaning(h[1]) == Some(b) && Verbatim().Meaning(h[2]) == Some(c);
    }
  }

  // ----- The object, used by one thread at a time -----

  class CachedFile<D> {
    var cache: Option<Cached<D>>

    constructor ()
      ensures cache == None
    {
      cache := None;
    }

    /** `get`/`load` over a file that does not change during the call.  The cache is invisible:
        the caller gets what reading the file afresh would give. */
    method Get(src: Source<D>, ghost h: seq<File>, disk: File) returns (r: Option<D>)
      requires h != [] && h[|h| - 1] == disk && KeysTellContent(src, h)
      requires cache.Some? ==> CacheSound(src, h, cache.value)
      modifies this
      ensures r == src.Meaning(disk)
      ensures cache.Some? ==> CacheSound(src, h, cache.value)
      ensures cache == if r.None? || (old(cache).Some? && disk.Present? && old(cache).value.key == Some(disk.key))
                       then old(cache) else Some(Cached(KeyOf(disk), r.value))
    {
      if disk.Absent? && src.whenMissing.None? {
        return None;
      }
      var key := KeyOf(disk);
      var seen := cache;
      if seen.None? || seen.value.key != key || key.None? {
        r := src.Meaning(disk);
        if r.None? { return; }
        seen := Some(Cached(key, r.value));
        assert src.Meaning(h[|h| - 1]) == Some(seen.value.data);
        cache := seen;
      } else {
        ghost var i :| 0 <= i < |h| && KeyOf(h[i]) == key && HeldBetween(src, h, i, |h| - 1, seen.value.data);
        ghost var m :| i <= m < |h| && src.Meaning(h[m]) == Some(seen.value.data);
        assert src.Meaning(h[|h| - 1]) == Some(seen.value.data);
      }
      r := Some(seen.value.data);
    }
  }
}
