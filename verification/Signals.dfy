/** internal/engine/signals.go, and the copy of its window search in internal/frameworks/goravel:
    which groups of failing requests are repeated failures. */
module Signals {
  import opened Wrappers
  import opened Sorting
  import opened Text

  /** Nanoseconds since the zero time, which stands for "unknown". */
  type Time = nat

  const MAX_DURATION: int := 0x7fff_ffff_ffff_ffff

  /** time.Time.Sub, which saturates. */
  function Sub(later: Time, earlier: Time): int {
    if later - earlier > MAX_DURATION then MAX_DURATION
    else if later - earlier < -MAX_DURATION - 1 then -MAX_DURATION - 1
    else later - earlier
  }

  datatype Entry = Entry(at: Time, service: string, verb: string, route: string, status: int)

  datatype Threshold = Threshold(service: string, verb: string, route: string, statusCode: int, statusClass: int,
                                 minCount: int, window: int)

  function Class(status: int): int {
    if status < 0 then -((-status) / 100) * 100 else (status / 100) * 100
  }

  function WithDefaults(t: Threshold): Threshold {
    t.(minCount := if t.minCount == 0 then 3 else t.minCount,
       window := if t.window == 0 then 300_000_000_000 else t.window,
       statusClass := if t.statusClass == 0 && t.statusCode > 0 then Class(t.statusCode) else t.statusClass)
  }

  function Upper(c: char): char {
    if 'a' <= c <= 'z' then c - 'a' + 'A' else c
  }

  function ToUpper(s: string): string {
    seq(|s|, i requires 0 <= i < |s| => Upper(s[i]))
  }

  /** Two characters count as the same when they are, or are the small and the capital form of one letter. */
  lemma CaseIgnored(c: char, d: char)
    ensures Upper(c) == Upper(d) <==>
              || c == d
              || ('A' <= c <= 'Z' && d as int == c as int + 32)
              || ('A' <= d <= 'Z' && c as int == d as int + 32)
  {
  }

  predicate Matches(e: Entry, t: Threshold) {
    && e.status >= 400
    && (t.service == "" || e.service == "" || e.service == t.service)
    && (t.verb == "" || e.verb == "" || ToUpper(e.verb) == ToUpper(t.verb))
    && (t.route == "" || e.route == t.route)
    && (if t.statusCode > 0 then e.status == t.statusCode
        else t.statusClass > 0 ==> Class(e.status) == t.statusClass)
  }

  /** httpFailureKey; the status class is printed after the last bar, so keeping it apart loses
      nothing. */
  datatype GroupKey = GroupKey(text: string, statusClass: int)

  function KeyOf(e: Entry): GroupKey {
    GroupKey(ToUpper(e.verb) + "|" + e.route, Class(e.status))
  }

  /** Groups are endpoints as long as no method name holds a bar. */
  lemma SameGroup(a: Entry, b: Entry)
    requires '|' !in ToUpper(a.verb) && '|' !in ToUpper(b.verb)
    ensures KeyOf(a) == KeyOf(b)
       <==> ToUpper(a.verb) == ToUpper(b.verb) && a.route == b.route && Class(a.status) == Class(b.status)
  {
    if KeyOf(a).text == KeyOf(b).text { OneSeparator(ToUpper(a.verb), a.route, ToUpper(b.verb), b.route, '|'); }
  }

  // ---------------------------------------------------------------- counting within a window

  predicate InWindow(e: Entry, start: Time, window: int) {
    start <= e.at && Sub(e.at, start) <= window
  }

  /** How many entries lie in the window that begins at start. */
  function CountFrom(g: seq<Entry>, start: Time, window: int): nat {
    if g == [] then 0
    else CountFrom(g[..|g| - 1], start, window) + if InWindow(g[|g| - 1], start, window) then 1 else 0
  }

  lemma {:induction false} CountConcat(a: seq<Entry>, b: seq<Entry>, start: Time, window: int)
    ensures CountFrom(a + b, start, window) == CountFrom(a, start, window) + CountFrom(b, start, window)
  {
    if b == [] {
      assert a + b == a;
    } else {
      assert (a + b)[..|a + b| - 1] == a + b[..|b| - 1];
      CountConcat(a, b[..|b| - 1], start, window);
    }
  }

  lemma RemoveOne(b: seq<Entry>, e: Entry, start: Time, window: int) returns (rest: seq<Entry>)
    requires e in b
    ensures multiset(rest) == multiset(b) - multiset{e}
    ensures CountFrom(b, start, window) == CountFrom(rest, start, window) + if InWindow(e, start, window) then 1 else 0
  {
    var j :| 0 <= j < |b| && b[j] == e;
    rest := b[..j] + b[j + 1..];
    assert b == b[..j] + [e] + b[j + 1..];
    CountConcat(b[..j] + [e], b[j + 1..], start, window);
    CountConcat(b[..j], [e], start, window);
    CountConcat(b[..j], b[j + 1..], start, window);
    assert [e][..0] == [];
  }

  lemma {:induction false} CountOfSame(a: seq<Entry>, b: seq<Entry>, start: Time, window: int)
    requires multiset(a) == multiset(b)
    ensures CountFrom(a, start, window) == CountFrom(b, start, window)
  {
    if a == [] {
      assert |multiset(b)| == 0;
    } else {
      var init, last := a[..|a| - 1], a[|a| - 1];
      assert a == init + [last];
      assert last in multiset(a) && last in multiset(b);
      var rest := RemoveOne(b, last, start, window);
      assert multiset(init) == multiset(a) - multiset{last};
      CountOfSame(init, rest, start, window);
    }
  }

  lemma {:induction false} CountAll(g: seq<Entry>, start: Time, window: int)
    requires forall i :: 0 <= i < |g| ==> InWindow(g[i], start, window)
    ensures CountFrom(g, start, window) == |g|
  {
    if g != [] { CountAll(g[..|g| - 1], start, window); }
  }

  lemma {:induction false} CountNone(g: seq<Entry>, start: Time, window: int)
    requires forall i :: 0 <= i < |g| ==> !InWindow(g[i], start, window)
    ensures CountFrom(g, start, window) == 0
  {
    if g != [] { CountNone(g[..|g| - 1], start, window); }
  }

  predicate Earlier(a: Entry, b: Entry) {
    a.at <= b.at
  }

  lemma CountSplit(v: seq<Entry>, i: nat, n: nat, start: Time, window: int)
    requires i <= n <= |v|
    requires forall k :: i <= k < n ==> InWindow(v[k], start, window)
    requires forall k :: n <= k < |v| ==> !InWindow(v[k], start, window)
    ensures CountFrom(v, start, window) == CountFrom(v[..i], start, window) + (n - i)
  {
    CountAll(v[i..n], start, window);
    CountNone(v[n..], start, window);
    assert v == v[..i] + v[i..n] + v[n..];
    CountConcat(v[..i], v[i..n], start, window);
    CountConcat(v[..i] + v[i..n], v[n..], start, window);
  }

  /** In order of time the run from i to the first entry that is too late is the window that
      begins at i, apart from earlier entries of the very same time. */
  lemma RunIsWindow(v: seq<Entry>, i: nat, n: nat, window: int)
    requires SortedBy(v, Earlier) && i < n <= |v|
    requires Sub(v[n - 1].at, v[i].at) <= window && (n < |v| ==> Sub(v[n].at, v[i].at) > window)
    ensures n - i <= CountFrom(v, v[i].at, window)
    ensures i == 0 || v[i - 1].at < v[i].at ==> n - i == CountFrom(v, v[i].at, window)
  {
    var start := v[i].at;
    forall k | i <= k < n ensures InWindow(v[k], start, window) {
      assert k == i || Earlier(v[i], v[k]);
      assert k == n - 1 || Earlier(v[k], v[n - 1]);
    }
    forall k | n <= k < |v| ensures !InWindow(v[k], start, window) {
      assert k == n || Earlier(v[n], v[k]);
    }
    CountSplit(v, i, n, start, window);
    if i == 0 || v[i - 1].at < v[i].at {
      forall k | 0 <= k < i
          ensures !InWindow(v[..i][k], start, window) { assert k == i - 1 || Earlier(v[k], v[i - 1]); }
      CountNone(v[..i], start, window);
    }
  }

  lemma {:induction false} CountAtMost(g: seq<Entry>, start: Time, window: int)
    ensures CountFrom(g, start, window) <= |g|
    ensures window < 0 ==> CountFrom(g, start, window) == 0
  {
    if g != [] { CountAtMost(g[..|g| - 1], start, window); }
  }

  // ---------------------------------------------------------------- one group

  /** Some `need` entries of the group lie within a window of each other. */
  ghost predicate Burst(g: seq<Entry>, need: int, window: int) {
    exists start: Time :: CountFrom(g, start, window) >= need
  }

  ghost predicate HasUnknown(g: seq<Entry>) {
    exists i :: 0 <= i < |g| && g[i].at == 0
  }

  /** What a search reports: the first and the last entry of a window and how many it holds. */
  datatype Hit = Hit(first: Entry, last: Entry, count: nat)

  /** The earliest window that begins at an entry and holds enough, from its first to its last
      entry. */
  ghost predicate FirstBurst(g: seq<Entry>, need: int, window: int, h: Hit) {
    && h.first in g && h.last in g
    && h.count == CountFrom(g, h.first.at, window) && h.count >= need
    && (forall e :: e in g && e.at < h.first.at ==> CountFrom(g, e.at, window) < need)
    && InWindow(h.last, h.first.at, window)
    && forall e :: e in g && InWindow(e, h.first.at, window) ==> e.at <= h.last.at
  }

  /** The whole group, from an entry of unknown time to the latest. */
  ghost predicate WholeGroup(g: seq<Entry>, h: Hit) {
    && h.first in g && h.last in g && h.first.at == 0 && h.count == |g|
    && forall e :: e in g ==> e.at <= h.last.at
  }

  /** collectHTTPWindow on the entries from i on. */
  method CollectWindow(v: seq<Entry>, i: nat, window: int, wholeIfUnknown: bool) returns (n: nat)
    requires SortedBy(v, Earlier) && i < |v|
    ensures i <= n <= |v|
    ensures wholeIfUnknown && v[i].at == 0 ==> n == |v|
    ensures !(wholeIfUnknown && v[i].at == 0) ==>
              (n == i <==> window < 0)
              && (n > i ==> Sub(v[n - 1].at, v[i].at) <= window)
              && (n < |v| ==> Sub(v[n].at, v[i].at) > window)
  {
    if wholeIfUnknown && v[i].at == 0 { return |v|; }
    n := i;
    while n < |v|
      invariant i <= n <= |v|
      invariant n > i ==> Sub(v[n - 1].at, v[i].at) <= window && window >= 0
    {
      assert n == i || Earlier(v[i], v[n]);
      if !(wholeIfUnknown && v[n].at == 0) && Sub(v[n].at, v[i].at) > window { break; }
      n := n + 1;
    }
  }

  /** A window that begins at no entry holds no more than the one that begins at its first entry. */
  lemma NoBurstFrom(g: seq<Entry>, need: int, window: int, start: Time)
    requires g != [] && forall e :: e in g ==> CountFrom(g, e.at, window) < need
    ensures CountFrom(g, start, window) < need
  {
    assert g[0] in g;
    if CountFrom(g, start, window) > 0 {
      var e := EarliestIn(g, start, window);
      CountShifts(g, start, e.at, window);
    }
  }

  lemma {:induction false} EarliestIn(v: seq<Entry>, start: Time, window: int) returns (e: Entry)
    requires CountFrom(v, start, window) > 0
    ensures e in v && InWindow(e, start, window)
    ensures forall x :: x in v && InWindow(x, start, window) ==> e.at <= x.at
  {
    var init, last := v[..|v| - 1], v[|v| - 1];
    assert v == init + [last];
    if CountFrom(init, start, window) == 0 {
      NoneCounted(init, start, window);
      e := last;
    } else {
      e := EarliestIn(init, start, window);
      if InWindow(last, start, window) && last.at < e.at { e := last; }
    }
  }

  lemma {:induction false} NoneCounted(v: seq<Entry>, start: Time, window: int)
    requires CountFrom(v, start, window) == 0
    ensures forall x :: x in v ==> !InWindow(x, start, window)
  {
    if v != [] {
      NoneCounted(v[..|v| - 1], start, window);
      assert v == v[..|v| - 1] + [v[|v| - 1]];
    }
  }

  lemma {:induction false} CountShifts(v: seq<Entry>, start: Time, later: Time, window: int)
    requires start <= later
    requires forall x :: x in v && InWindow(x, start, window) ==> later <= x.at
    ensures CountFrom(v, start, window) <= CountFrom(v, later, window)
  {
    if v != [] {
      CountShifts(v[..|v| - 1], start, later, window);
      assert v[|v| - 1] in v;
    }
  }

  lemma UnknownComesFirst(g: seq<Entry>, v: seq<Entry>)
    requires multiset(v) == multiset(g) && SortedBy(v, Earlier)
    ensures |v| == |g|
    ensures HasUnknown(g) ==> v != [] && v[0].at == 0
    ensures forall i :: 0 <= i < |v| && v[i].at == 0 ==> HasUnknown(g)
  {
    SameElements(v, g);
    assert |v| == |multiset(v)| == |multiset(g)| == |g|;
    if HasUnknown(g) {
      var i :| 0 <= i < |g| && g[i].at == 0;
      assert g[i] in v;
      var k :| 0 <= k < |v| && v[k] == g[i];
      assert k == 0 || Earlier(v[0], v[k]);
    }
    forall i | 0 <= i < |v| && v[i].at == 0 ensures HasUnknown(g) {
      assert v[i] in g;
    }
  }

  /** No entry up to place i of the ordered group begins a window with enough entries. */
  ghost predicate NoneBefore(g: seq<Entry>, v: seq<Entry>, i: nat, need: int, window: int)
    requires i <= |v|
  {
    forall k :: 0 <= k < i ==> CountFrom(g, v[k].at, window) < need
  }

  /** What the window collected at place i says. */
  lemma WindowDecides(g: seq<Entry>, v: seq<Entry>, i: nat, n: nat, need: int, window: int)
    requires multiset(v) == multiset(g) && SortedBy(v, Earlier) && i < |v| && i <= n <= |v| && (need > 0 || window >= 0)
    requires n == i <==> window < 0
    requires n > i ==> Sub(v[n - 1].at, v[i].at) <= window
    requires n < |v| ==> Sub(v[n].at, v[i].at) > window
    requires NoneBefore(g, v, i, need, window)
    ensures n - i < need ==> NoneBefore(g, v, i + 1, need, window)
    ensures n - i >= need ==> n > i && FirstBurst(g, need, window, Hit(v[i], v[n - 1], n - i))
  {
    CountOfSame(v, g, v[i].at, window);
    if n > i { RunIsWindow(v, i, n, window); } else { CountAtMost(v, v[i].at, window); }
    if n - i >= need {
      SameElements(v, g);
      assert v[i] in v && v[n - 1] in v;
      assert i == n - 1 || Earlier(v[i], v[n - 1]);
      forall e | e in g
        ensures e.at < v[i].at ==> CountFrom(g, e.at, window) < need
        ensures InWindow(e, v[i].at, window) ==> e.at <= v[n - 1].at
      {
        assert e in v;
        var k :| 0 <= k < |v| && v[k] == e;
        assert k < i || k == i || Earlier(v[i], v[k]);
        assert k < n - 1 ==> Earlier(v[k], v[n - 1]);
        assert n < k ==> Earlier(v[n], v[k]);
      }
    }
  }

  /** The search of RepeatedHTTPFailures in one group (wholeIfUnknown) and of goravel's
      RepeatedFailures (not wholeIfUnknown). */
  method DetectGroup(g: seq<Entry>, need: int, window: int, wholeIfUnknown: bool) returns (found: Option<Hit>)
    requires g != [] && (need > 0 || window >= 0)
    ensures wholeIfUnknown && HasUnknown(g) ==> (found.Some? <==> |g| >= need)
    ensures wholeIfUnknown && HasUnknown(g) && found.Some? ==> WholeGroup(g, found.value)
    ensures !(wholeIfUnknown && HasUnknown(g)) ==> (found.Some? <==> Burst(g, need, window))
    ensures !(wholeIfUnknown && HasUnknown(g)) && found.Some? ==> FirstBurst(g, need, window, found.value)
  {
    var v := Sort(g, Earlier);
    SameElements(v, g);
    UnknownComesFirst(g, v);
    ghost var whole := wholeIfUnknown && HasUnknown(g);
    var i := 0;
    while i < |v|
      invariant 0 <= i <= |v|
      invariant whole && i > 0 ==> |v| < need
      invariant !whole ==> NoneBefore(g, v, i, need, window)
    {
      var n := CollectWindow(v, i, window, wholeIfUnknown);
      if !whole { WindowDecides(g, v, i, n, need, window); }
      if n - i >= need {
        if whole { LatestLast(g, v); }
        return Some(Hit(v[i], v[n - 1], n - i));
      }
      i := i + 1;
    }
    if !whole { NoBurst(g, v, need, window); }
    found := None;
  }

  lemma LatestLast(g: seq<Entry>, v: seq<Entry>)
    requires v != [] && multiset(v) == multiset(g) && SortedBy(v, Earlier)
    ensures v[0] in g && v[|v| - 1] in g && forall e :: e in g ==> e.at <= v[|v| - 1].at
  {
    SameElements(v, g);
    assert v[0] in v && v[|v| - 1] in v;
    forall e | e in g ensures e.at <= v[|v| - 1].at {
      assert e in v;
      var k :| 0 <= k < |v| && v[k] == e;
      assert k == |v| - 1 || Earlier(v[k], v[|v| - 1]);
    }
  }

  lemma NoBurst(g: seq<Entry>, v: seq<Entry>, need: int, window: int)
    requires g != [] && multiset(v) == multiset(g) && NoneBefore(g, v, |v|, need, window)
    ensures !Burst(g, need, window)
  {
    SameElements(v, g);
    forall e | e in g ensures CountFrom(g, e.at, window) < need {
      var k :| 0 <= k < |v| && v[k] == e;
    }
    forall start: Time ensures CountFrom(g, start, window) < need { NoBurstFrom(g, need, window, start); }
  }

  // ---------------------------------------------------------------- the whole search

  datatype Signal = Signal(hit: Hit, start: Time, end: Time)

  /** The entries of one group, in the order they were read. */
  function Select(entries: seq<Entry>, t: Threshold, key: GroupKey): seq<Entry> {
    if entries == [] then []
    else
      var last := entries[|entries| - 1];
      Select(entries[..|entries| - 1], t, key) + if Matches(last, t) && KeyOf(last) == key then [last] else []
  }

  /** The declarative verdict on a group. */
  ghost predicate Repeated(g: seq<Entry>, t: Threshold) {
    if HasUnknown(g) then |g| >= t.minCount else g != [] && Burst(g, t.minCount, t.window)
  }

  /** A signal about the group: its search result and the times reported for it. */
  ghost predicate SignalFor(g: seq<Entry>, t: Threshold, now: Time, s: Signal) {
    && (if HasUnknown(g) then WholeGroup(g, s.hit) else FirstBurst(g, t.minCount, t.window, s.hit))
    && s.start == (if s.hit.first.at == 0 then now else s.hit.first.at)
    && s.end == if s.hit.last.at <= s.start then s.start + 1 else s.hit.last.at
  }

  predicate Louder(a: Signal, b: Signal) {
    a.hit.count > b.hit.count || (a.hit.count == b.hit.count && a.start <= b.start)
  }

  lemma {:induction false} SelectSpec(entries: seq<Entry>, t: Threshold, key: GroupKey)
    ensures forall e :: e in Select(entries, t, key) <==> e in entries && Matches(e, t) && KeyOf(e) == key
  {
    if entries != [] {
      SelectSpec(entries[..|entries| - 1], t, key);
      assert entries == entries[..|entries| - 1] + [entries[|entries| - 1]];
    }
  }

  lemma SelectOn(entries: seq<Entry>, i: nat, t: Threshold, k: GroupKey)
    requires i < |entries|
    ensures Select(entries[..i + 1], t, k)
         == Select(entries[..i], t, k) + if Matches(entries[i], t) && KeyOf(entries[i]) == k then [entries[i]] else []
  {
    assert entries[..i + 1][..i] == entries[..i];
  }

  ghost predicate Grouped(entries: seq<Entry>, t: Threshold, byKey: map<GroupKey, seq<Entry>>) {
    forall k :: Select(entries, t, k) == if k in byKey then byKey[k] else []
  }

  method GroupByKey(entries: seq<Entry>, t: Threshold) returns (byKey: map<GroupKey, seq<Entry>>)
    ensures Grouped(entries, t, byKey) && forall k :: k in byKey ==> byKey[k] != []
  {
    byKey := map[];
    for i := 0 to |entries|
      invariant Grouped(entries[..i], t, byKey) && forall k :: k in byKey ==> byKey[k] != []
    {
      var e := entries[i];
      ghost var before := byKey;
      if Matches(e, t) {
        byKey := byKey[KeyOf(e) := (if KeyOf(e) in byKey then byKey[KeyOf(e)] else []) + [e]];
      }
      forall k ensures Select(entries[..i + 1], t, k) == if k in byKey then byKey[k] else [] {
        SelectOn(entries, i, t, k);
        assert Select(entries[..i], t, k) == if k in before then before[k] else [];
      }
    }
    assert entries[..|entries|] == entries;
  }

  method SignalOf(g: seq<Entry>, t: Threshold, now: Time) returns (s: Option<Signal>)
    requires g != [] && (t.minCount > 0 || t.window >= 0)
    ensures s.Some? <==> Repeated(g, t)
    ensures s.Some? ==> SignalFor(g, t, now, s.value) && s.value.hit.first in g
  {
    var hit := DetectGroup(g, t.minCount, t.window, true);
    if hit.None? { return None; }
    var start := if hit.value.first.at == 0 then now else hit.value.first.at;
    s := Some(Signal(hit.value, start, if hit.value.last.at <= start then start + 1 else hit.value.last.at));
  }

  /** The groups `done` have been searched and `found` holds their signals. */
  ghost predicate Reported(entries: seq<Entry>, t: Threshold, now: Time, done: set<GroupKey>, found: seq<Signal>) {
    && (forall s :: s in found ==> SignalOfGroup(entries, t, now, done, s))
    && (forall k :: k in done ==> (Repeated(Select(entries, t, k), t) <==> HasKey(found, k)))
    && (forall i, j :: 0 <= i < j < |found| ==> KeyOf(found[i].hit.first) != KeyOf(found[j].hit.first))
  }

  ghost predicate SignalOfGroup(entries: seq<Entry>, t: Threshold, now: Time, done: set<GroupKey>, s: Signal) {
    KeyOf(s.hit.first) in done && SignalFor(Select(entries, t, KeyOf(s.hit.first)), t, now, s)
  }

  lemma StillReported(entries: seq<Entry>, t: Threshold, now: Time, done: set<GroupKey>, found: seq<Signal>,
                      k: GroupKey)
    requires Reported(entries, t, now, done, found) && k !in done
    ensures forall x :: x in found ==> SignalOfGroup(entries, t, now, done + {k}, x)
    ensures forall i :: 0 <= i < |found| ==> KeyOf(found[i].hit.first) != k
    ensures !HasKey(found, k)
  {
    forall x | x in found ensures SignalOfGroup(entries, t, now, done + {k}, x) && KeyOf(x.hit.first) != k {
      assert SignalOfGroup(entries, t, now, done, x);
    }
    forall i | 0 <= i < |found| ensures KeyOf(found[i].hit.first) != k { assert found[i] in found; }
  }

  lemma ReportedStep(entries: seq<Entry>, t: Threshold, now: Time, done: set<GroupKey>, found: seq<Signal>,
                     k: GroupKey, s: Option<Signal>)
    requires Reported(entries, t, now, done, found) && k !in done
    requires s.Some? <==> Repeated(Select(entries, t, k), t)
    requires s.Some? ==> KeyOf(s.value.hit.first) == k && SignalFor(Select(entries, t, k), t, now, s.value)
    ensures Reported(entries, t, now, done + {k}, if s.Some? then found + [s.value] else found)
  {
    var after := if s.Some? then found + [s.value] else found;
    if s.Some? { HasKeySnoc(found, s.value); }
    StillReported(entries, t, now, done, found, k);
    forall x | x in after ensures SignalOfGroup(entries, t, now, done + {k}, x) {
      assert x in found || (s.Some? && x == s.value);
    }
  }

  /** The signals of the groups in no particular order. */
  method DetectAll(entries: seq<Entry>, t: Threshold, now: Time, byKey: map<GroupKey, seq<Entry>>)
    returns (found: seq<Signal>)
    requires Grouped(entries, t, byKey) && (t.minCount > 0 || t.window >= 0)
    requires forall k :: k in byKey ==> byKey[k] != []
    ensures Reported(entries, t, now, byKey.Keys, found)
  {
    found := [];
    var left := byKey.Keys;
    while left != {}
      invariant left <= byKey.Keys && Reported(entries, t, now, byKey.Keys - left, found)
      decreases |left|
    {
      var k :| k in left;
      assert Select(entries, t, k) == byKey[k];
      var s := SignalOf(byKey[k], t, now);
      SelectSpec(entries, t, k);
      ReportedStep(entries, t, now, byKey.Keys - left, found, k, s);
      assert byKey.Keys - (left - {k}) == byKey.Keys - left + {k};
      if s.Some? { found := found + [s.value]; }
      left := left - {k};
    }
    assert byKey.Keys - left == byKey.Keys;
  }

  // ---------------------------------------------------------------- in terms of the log lines

  /** A failing request that the threshold, as it was given, asks about. */
  predicate Fits(e: Entry, threshold: Threshold) {
    && e.status >= 400
    && (threshold.service != "" && e.service != "" ==> e.service == threshold.service)
    && (threshold.verb != "" && e.verb != "" ==> ToUpper(e.verb) == ToUpper(threshold.verb))
    && (threshold.route != "" ==> e.route == threshold.route)
    && (threshold.statusCode > 0 ==> e.status == threshold.statusCode)
    && (threshold.statusCode <= 0 && threshold.statusClass > 0 ==> e.status - e.status % 100 == threshold.statusClass)
  }

  lemma MatchesFits(e: Entry, threshold: Threshold)
    ensures Matches(e, WithDefaults(threshold)) <==> Fits(e, threshold)
  {
  }

  predicate SameEndpoint(a: Entry, b: Entry) {
    ToUpper(a.verb) == ToUpper(b.verb) && a.route == b.route && a.status / 100 == b.status / 100
  }

  ghost predicate NoBars(entries: seq<Entry>) {
    forall e :: e in entries ==> '|' !in ToUpper(e.verb)
  }

  lemma SameKey(a: Entry, b: Entry)
    requires '|' !in ToUpper(a.verb) && '|' !in ToUpper(b.verb) && a.status >= 400 && b.status >= 400
    ensures KeyOf(a) == KeyOf(b) <==> SameEndpoint(a, b)
  {
    SameGroup(a, b);
  }

  /** The places of the entries with this property. */
  ghost function Places(entries: seq<Entry>, f: Entry -> bool): set<int> {
    set i | 0 <= i < |entries| && f(entries[i])
  }

  lemma PlacesSnoc(entries: seq<Entry>, f: Entry -> bool)
    requires entries != []
    ensures var n := |entries| - 1;
            |Places(entries, f)| == |Places(entries[..n], f)| + if f(entries[n]) then 1 else 0
  {
    var n := |entries| - 1;
    assert Places(entries, f) == Places(entries[..n], f) + if f(entries[n]) then {n} else {};
  }

  /** The failing requests to the endpoint of `like`. */
  function Alike(threshold: Threshold, like: Entry): Entry -> bool {
    (e: Entry) => Fits(e, threshold) && SameEndpoint(e, like)
  }

  /** Those in the window from `start` on. The longest duration has no end. */
  function AlikeWithin(threshold: Threshold, like: Entry, start: Time): Entry -> bool {
    (e: Entry) =>
      && Fits(e, threshold) && SameEndpoint(e, like)
      && start <= e.at && (e.at - start <= Span(threshold) || MAX_DURATION <= Span(threshold))
  }

  /** The minimum and the window that count. */
  function Need(threshold: Threshold): int {
    if threshold.minCount == 0 then 3 else threshold.minCount
  }

  function Span(threshold: Threshold): int {
    if threshold.window == 0 then 5 * 60 * 1_000_000_000 else threshold.window
  }

  lemma {:induction false} SelectCounts(entries: seq<Entry>, threshold: Threshold, like: Entry, start: Time)
    requires NoBars(entries) && '|' !in ToUpper(like.verb) && like.status >= 400
    ensures var g := Select(entries, WithDefaults(threshold), KeyOf(like));
            && |g| == |Places(entries, Alike(threshold, like))|
            && CountFrom(g, start, Span(threshold)) == |Places(entries, AlikeWithin(threshold, like, start))|
  {
    if entries != [] {
      var n: nat := |entries| - 1;
      var init, last := entries[..n], entries[n];
      SelectCounts(init, threshold, like, start);
      var t, key := WithDefaults(threshold), KeyOf(like);
      MatchesFits(last, threshold);
      if last.status >= 400 { SameKey(last, like); }
      var more := if Fits(last, threshold) && SameEndpoint(last, like) then [last] else [];
      assert Select(entries, t, key) == Select(init, t, key) + more;
      CountConcat(Select(init, t, key), more, start, Span(threshold));
      PlacesSnoc(entries, Alike(threshold, like));
      PlacesSnoc(entries, AlikeWithin(threshold, like, start));
      if more != [] { assert more[..0] == []; }
    }
  }

  /** Every time of a failing request to this endpoint is known. */
  ghost predicate TimesKnown(entries: seq<Entry>, threshold: Threshold, like: Entry) {
    forall e :: e in entries && Fits(e, threshold) && SameEndpoint(e, like) ==> e.at != 0
  }

  lemma KnownTimes(entries: seq<Entry>, threshold: Threshold, like: Entry)
    requires NoBars(entries) && '|' !in ToUpper(like.verb) && like.status >= 400
    ensures HasUnknown(Select(entries, WithDefaults(threshold), KeyOf(like))) <==> !TimesKnown(entries, threshold, like)
  {
    var t, key := WithDefaults(threshold), KeyOf(like);
    var g := Select(entries, t, key);
    SelectSpec(entries, t, key);
    forall e | e in entries ensures e in g <==> Fits(e, threshold) && SameEndpoint(e, like) {
      MatchesFits(e, threshold);
      if e.status >= 400 { SameKey(e, like); }
    }
    if HasUnknown(g) {
      var i :| 0 <= i < |g| && g[i].at == 0;
      assert g[i] in g;
    }
  }

  /** What a signal says of the log: it begins and ends with failing requests of one endpoint, and counts
      all of them in the window of its first, or all there are when some time is unknown; these are
      at least as many as needed. */
  ghost predicate SignalInFields(entries: seq<Entry>, threshold: Threshold, s: Signal) {
    var first, last := s.hit.first, s.hit.last;
    && first in entries && last in entries && Fits(first, threshold) && Fits(last, threshold)
    && SameEndpoint(first, last)
    && s.hit.count >= Need(threshold)
    && s.hit.count == if TimesKnown(entries, threshold, first)
                      then |Places(entries, AlikeWithin(threshold, first, first.at))|
                      else |Places(entries, Alike(threshold, first))|
  }

  ghost predicate SignalledEndpoint(signals: seq<Signal>, like: Entry) {
    exists s :: s in signals && SameEndpoint(s.hit.first, like)
  }

  /** The endpoint of `like` has as many failing requests as needed: within a window of any start, or in
      all when some time is unknown. */
  ghost predicate FailsRepeatedly(entries: seq<Entry>, threshold: Threshold, like: Entry) {
    if TimesKnown(entries, threshold, like)
    then exists start: Time :: |Places(entries, AlikeWithin(threshold, like, start))| >= Need(threshold)
    else |Places(entries, Alike(threshold, like))| >= Need(threshold)
  }

  lemma SignalMeans(entries: seq<Entry>, threshold: Threshold, now: Time, s: Signal)
    requires NoBars(entries)
    requires var t := WithDefaults(threshold); SignalFor(Select(entries, t, KeyOf(s.hit.first)), t, now, s)
    requires Repeated(Select(entries, WithDefaults(threshold), KeyOf(s.hit.first)), WithDefaults(threshold))
    ensures SignalInFields(entries, threshold, s)
  {
    var t, first, last := WithDefaults(threshold), s.hit.first, s.hit.last;
    SelectSpec(entries, t, KeyOf(first));
    MatchesFits(first, threshold);
    MatchesFits(last, threshold);
    SameKey(first, last);
    SelectCounts(entries, threshold, first, first.at);
    KnownTimes(entries, threshold, first);
  }

  lemma RepeatedMeans(entries: seq<Entry>, threshold: Threshold, like: Entry)
    requires NoBars(entries) && like in entries && Fits(like, threshold)
    ensures var t := WithDefaults(threshold); var g := Select(entries, t, KeyOf(like));
            g != [] && (Repeated(g, t) <==> FailsRepeatedly(entries, threshold, like))
  {
    var t := WithDefaults(threshold);
    var g := Select(entries, t, KeyOf(like));
    SelectSpec(entries, t, KeyOf(like));
    MatchesFits(like, threshold);
    assert like in g;
    KnownTimes(entries, threshold, like);
    SelectCounts(entries, threshold, like, 0);
    forall start: Time
      ensures CountFrom(g, start, t.window) == |Places(entries, AlikeWithin(threshold, like, start))|
    {
      SelectCounts(entries, threshold, like, start);
    }
  }

  lemma ReportInFields(entries: seq<Entry>, threshold: Threshold, now: Time, signals: seq<Signal>)
    requires NoBars(entries)
    requires var t := WithDefaults(threshold);
             forall s :: s in signals ==> SignalFor(Select(entries, t, KeyOf(s.hit.first)), t, now, s)
    requires var t := WithDefaults(threshold);
             forall k :: Select(entries, t, k) != [] ==> (Repeated(Select(entries, t, k), t) <==> HasKey(signals, k))
    ensures forall s :: s in signals ==> SignalInFields(entries, threshold, s)
    ensures forall e :: e in entries && Fits(e, threshold) ==>
              (FailsRepeatedly(entries, threshold, e) <==> SignalledEndpoint(signals, e))
  {
    var t := WithDefaults(threshold);
    forall s | s in signals ensures SignalInFields(entries, threshold, s) {
      assert HasKey(signals, KeyOf(s.hit.first));
      SignalMeans(entries, threshold, now, s);
    }
    forall e | e in entries && Fits(e, threshold)
      ensures FailsRepeatedly(entries, threshold, e) <==> SignalledEndpoint(signals, e)
    {
      RepeatedMeans(entries, threshold, e);
      assert HasKey(signals, KeyOf(e)) <==> SignalledEndpoint(signals, e) by {
        forall s | s in signals ensures KeyOf(s.hit.first) == KeyOf(e) <==> SameEndpoint(s.hit.first, e) {
          assert SignalInFields(entries, threshold, s);
          SameKey(s.hit.first, e);
        }
      }
    }
  }

  /** With nothing asked for but the defaults, three failing requests to one endpoint within five minutes
      are reported, and two are not. */
  lemma ThreeInFiveMinutes(entries: seq<Entry>, threshold: Threshold, i: nat, j: nat, k: nat)
    requires threshold.minCount == 0 && threshold.window == 0 && i < j < k < |entries|
    requires forall n :: n in {i, j, k} ==> Fits(entries[n], threshold) && SameEndpoint(entries[n], entries[i])
    requires forall n :: n in {i, j, k} ==> 0 <= entries[n].at - entries[i].at <= 300_000_000_000
    requires TimesKnown(entries, threshold, entries[i])
    ensures FailsRepeatedly(entries, threshold, entries[i])
  {
    var places := Places(entries, AlikeWithin(threshold, entries[i], entries[i].at));
    forall n | n in {i, j, k} ensures n in places {}
    SubsetIsSmaller({i, j, k}, places);
    assert |{i, j, k}| == 3;
  }

  lemma TwoAreNotEnough(entries: seq<Entry>, threshold: Threshold, e: Entry)
    requires threshold.minCount == 0 && |Places(entries, Alike(threshold, e))| <= 2
    ensures !FailsRepeatedly(entries, threshold, e)
  {
    forall start: Time ensures |Places(entries, AlikeWithin(threshold, e, start))| <= 2 {
      SubsetIsSmaller(Places(entries, AlikeWithin(threshold, e, start)), Places(entries, Alike(threshold, e)));
    }
  }

  /** RepeatedHTTPFailures: one signal for each group that repeats, and for no other, the one with
      most requests first. */
  method RepeatedHTTPFailures(entries: seq<Entry>, threshold: Threshold, now: Time) returns (signals: seq<Signal>)
    requires threshold.minCount >= 0 || threshold.window >= 0
    ensures forall i, j :: 0 <= i < j < |signals| ==>
              || signals[i].hit.count > signals[j].hit.count
              || (signals[i].hit.count == signals[j].hit.count && signals[i].start <= signals[j].start)
    ensures var t := WithDefaults(threshold);
            forall s :: s in signals ==> SignalFor(Select(entries, t, KeyOf(s.hit.first)), t, now, s)
    ensures var t := WithDefaults(threshold);
            forall k :: Select(entries, t, k) != [] ==> (Repeated(Select(entries, t, k), t) <==> HasKey(signals, k))
    ensures forall i, j :: 0 <= i < j < |signals| ==> KeyOf(signals[i].hit.first) != KeyOf(signals[j].hit.first)
    ensures NoBars(entries) ==> forall s :: s in signals ==> SignalInFields(entries, threshold, s)
    ensures NoBars(entries) ==> forall e :: e in entries && Fits(e, threshold) ==>
              (FailsRepeatedly(entries, threshold, e) <==> SignalledEndpoint(signals, e))
  {
    var t := WithDefaults(threshold);
    var byKey := GroupByKey(entries, t);
    var found := DetectAll(entries, t, now, byKey);
    signals := Sort(found, Louder);
    SortedKeepsKeys(found, signals);
    forall s | s in signals ensures SignalFor(Select(entries, t, KeyOf(s.hit.first)), t, now, s) {
      assert SignalOfGroup(entries, t, now, byKey.Keys, s);
    }
    forall i, j | 0 <= i < j < |signals| ensures Louder(signals[i], signals[j]) {}
    if NoBars(entries) { ReportInFields(entries, threshold, now, signals); }
  }

  ghost predicate HasKey(found: seq<Signal>, k: GroupKey) {
    exists s :: s in found && KeyOf(s.hit.first) == k
  }

  lemma HasKeySnoc(found: seq<Signal>, s: Signal)
    ensures forall k :: HasKey(found + [s], k) <==> HasKey(found, k) || k == KeyOf(s.hit.first)
  {
    forall k ensures HasKey(found + [s], k) <==> HasKey(found, k) || k == KeyOf(s.hit.first) {
      assert s in found + [s];
      if HasKey(found, k) {
        var x :| x in found && KeyOf(x.hit.first) == k;
        assert x in found + [s];
      }
    }
  }

  lemma SortedKeepsKeys(found: seq<Signal>, signals: seq<Signal>)
    requires multiset(found) == multiset(signals)
    requires forall i, j :: 0 <= i < j < |found| ==> KeyOf(found[i].hit.first) != KeyOf(found[j].hit.first)
    ensures forall k :: HasKey(signals, k) <==> HasKey(found, k)
    ensures forall s :: s in signals <==> s in found
    ensures forall i, j :: 0 <= i < j < |signals| ==> KeyOf(signals[i].hit.first) != KeyOf(signals[j].hit.first)
  {
    SameElements(found, signals);
    DistinctCounts(found);
    forall i, j | 0 <= i < j < |signals| ensures KeyOf(signals[i].hit.first) != KeyOf(signals[j].hit.first) {
      CountsDistinct(signals, i, j);
      assert signals[i] in signals && signals[j] in signals;
      var a :| 0 <= a < |found| && found[a] == signals[i];
      var b :| 0 <= b < |found| && found[b] == signals[j];
      assert a != b;
    }
    forall k ensures HasKey(signals, k) <==> HasKey(found, k) {}
  }
}
