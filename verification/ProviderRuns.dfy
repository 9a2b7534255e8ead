/**
 The provider under concurrency: queries and the background refresh interleave
 between every access to the cache and to the tracked keys, which are locked
 separately, while the catalogue changes and the cache drops entries.
 */
module ProviderRuns {
  import opened Wrappers
  import opened Pricing
  import opened Provider

  /** What a goroutine holds between its accesses; a refresh does not track the key again. */
  datatype Phase =
    | Resolved(key: NodeClassKey, entry: Entry, tracks: bool)
    | Added(key: NodeClassKey, entry: Entry)

  datatype Shared = Shared(cache: map<NodeClassKey, Entry>, active: set<NodeClassKey>, threads: map<nat, Phase>,
                           seen: seq<Catalogue>)

  datatype Event =
    | Hit(key: NodeClassKey)
    | Miss(t: nat, key: NodeClassKey, c: Catalogue)
    | Refresh(t: nat, key: NodeClassKey, c: Catalogue)
    | Add(t: nat)
    | Track(t: nat)
    | Evict(keys: set<NodeClassKey>)
    | FindOne(key: NodeClassKey, name: string, c: Catalogue)
    | PriceOne(key: NodeClassKey, preset: Preset, c: Catalogue)

  /** A goroutine can take this step now. */
  predicate Enabled(s: Shared, e: Event) {
    match e
    case Hit(key) => key in s.cache
    case Miss(t, key, c) => t !in s.threads && key !in s.cache
    case Refresh(t, key, c) => t !in s.threads && key in s.active
    case Add(t) => t in s.threads && s.threads[t].Resolved?
    case Track(t) => t in s.threads && s.threads[t].Added?
    case Evict(_) | FindOne(_, _, _) | PriceOne(_, _, _) => true
  }

  function Resolving(s: Shared, t: nat, key: NodeClassKey, c: Catalogue, tracks: bool): Shared {
    var r := Resolve(c, key);
    s.(threads := if r.Some? then s.threads[t := Resolved(key, r.value, tracks)] else s.threads, seen := s.seen + [c])
  }

  function After(s: Shared, e: Event): Shared
    requires Enabled(s, e)
  {
    match e
    case Hit(_) => s
    case Miss(t, key, c) => Resolving(s, t, key, c, true)
    case Refresh(t, key, c) => Resolving(s, t, key, c, false)
    case Add(t) =>
      var p := s.threads[t];
      s.(cache := s.cache[p.key := p.entry],
         threads := if p.tracks then s.threads[t := Added(p.key, p.entry)] else s.threads - {t})
    case Track(t) => s.(active := s.active + {s.threads[t].key}, threads := s.threads - {t})
    case Evict(keys) => s.(cache := s.cache - keys)
    case FindOne(_, _, _) | PriceOne(_, _, _) => s
  }

  /** What a query is answered: an entry, from which types or launch settings are taken, one preset, or one type. */
  datatype Answer =
    | EntryFor(key: NodeClassKey, entry: Option<Entry>)
    | PresetFor(key: NodeClassKey, name: string, preset: Result<Option<Preset>, ()>)
    | TypeFor(key: NodeClassKey, of: Preset, instanceType: InstanceType)

  /** The answer of a query that returns with this event. */
  function Answered(s: Shared, e: Event): Option<Answer>
    requires Enabled(s, e)
  {
    match e
    case Hit(key) => Some(EntryFor(key, Some(s.cache[key])))
    case Miss(_, key, c) => if Resolve(c, key).None? then Some(EntryFor(key, None)) else None
    case Track(t) => Some(EntryFor(s.threads[t].key, Some(s.threads[t].entry)))
    case FindOne(key, name, c) => Some(PresetFor(key, name, PresetAnswer(s.cache, c, key, name)))
    case PriceOne(key, p, c) => Some(TypeFor(key, p, TypeAnswer(s.cache, c, key, p)))
    case _ => None
  }

  /** The answer there would be without a cache; a single type needs a name of its own. */
  ghost predicate IsUncached(cat: Catalogue, a: Answer) {
    match a
    case EntryFor(key, entry) => entry == Resolve(cat, key)
    case PresetFor(key, name, answer) =>
      (match cat.list(key.projectID)
       case None => answer == Err(())
       case Some(presets) => answer.Ok? && FirstNamed(presets, name, answer.value))
    case TypeFor(key, p, it) => OwnName(cat, key, p) ==> TypeIs(cat, key, p, it)
  }

  ghost predicate Run(states: seq<Shared>, events: seq<Event>) {
    && |states| == |events| + 1
    && states[0] == Shared(map[], {}, map[], [])
    && forall i {:trigger events[i]} :: 0 <= i < |events| ==> Enabled(states[i], events[i]) && states[i + 1] == After(states[i], events[i])
  }

  /** The key is tracked, or the goroutine that added it is about to track it. */
  ghost predicate TrackedSoon(s: Shared, k: NodeClassKey) {
    k in s.active || exists t :: t in s.threads && s.threads[t].Added? && s.threads[t].key == k
  }

  ghost predicate Inv(s: Shared) {
    && (forall k :: k in s.cache ==> FromSeen(s.seen, k, s.cache[k]) && TrackedSoon(s, k))
    && (forall t :: t in s.threads ==> PhaseInv(s, s.threads[t]))
  }

  ghost predicate PhaseInv(s: Shared, p: Phase) {
    FromSeen(s.seen, p.key, p.entry) && (p.Resolved? && !p.tracks ==> p.key in s.active)
  }

  lemma MeetingKeepsInv(s: Shared, c: Catalogue)
    requires Inv(s)
    ensures Inv(s.(seen := s.seen + [c]))
  {
    var s' := s.(seen := s.seen + [c]);
    forall k | k in s.cache ensures FromSeen(s'.seen, k, s.cache[k]) && TrackedSoon(s', k) {
      StillFromSeen(s.seen, c, k, s.cache[k]);
      assert TrackedSoon(s, k);
    }
    forall u | u in s.threads ensures PhaseInv(s', s.threads[u]) {
      assert PhaseInv(s, s.threads[u]);
      StillFromSeen(s.seen, c, s.threads[u].key, s.threads[u].entry);
    }
  }

  lemma StartingKeepsInv(s: Shared, t: nat, key: NodeClassKey, e: Entry, tracks: bool)
    requires Inv(s) && t !in s.threads && FromSeen(s.seen, key, e) && (!tracks ==> key in s.active)
    ensures Inv(s.(threads := s.threads[t := Resolved(key, e, tracks)]))
  {
    var s' := s.(threads := s.threads[t := Resolved(key, e, tracks)]);
    forall k | k in s.cache ensures TrackedSoon(s', k) {
      assert TrackedSoon(s, k);
      if u :| u in s.threads && s.threads[u].Added? && s.threads[u].key == k {
        assert s'.threads[u] == s.threads[u];
      }
    }
    forall u | u in s'.threads ensures PhaseInv(s', s'.threads[u]) {
      assert u in s.threads ==> PhaseInv(s, s.threads[u]);
    }
  }

  lemma ResolvingKeepsInv(s: Shared, t: nat, key: NodeClassKey, c: Catalogue, tracks: bool)
    requires Inv(s) && t !in s.threads && (!tracks ==> key in s.active)
    ensures Inv(Resolving(s, t, key, c, tracks))
  {
    MeetingKeepsInv(s, c);
    var r := Resolve(c, key);
    if r.Some? {
      StillFromSeen(s.seen, c, key, r.value);
      StartingKeepsInv(s.(seen := s.seen + [c]), t, key, r.value, tracks);
    }
  }

  lemma AddKeepsInv(s: Shared, t: nat)
    requires Inv(s) && Enabled(s, Add(t))
    ensures Inv(After(s, Add(t)))
  {
    var s', p := After(s, Add(t)), s.threads[t];
    assert PhaseInv(s, p);
    forall k | k in s'.cache ensures FromSeen(s'.seen, k, s'.cache[k]) && TrackedSoon(s', k) {
      if k == p.key {
        assert p.tracks ==> s'.threads[t].Added? && s'.threads[t].key == k;
      } else {
        assert TrackedSoon(s, k);
        if u :| u in s.threads && s.threads[u].Added? && s.threads[u].key == k {
          assert s'.threads[u] == s.threads[u];
        }
      }
    }
    forall u | u in s'.threads ensures PhaseInv(s', s'.threads[u]) {
      assert PhaseInv(s, s.threads[u]);
    }
  }

  lemma TrackKeepsInv(s: Shared, t: nat)
    requires Inv(s) && Enabled(s, Track(t))
    ensures Inv(After(s, Track(t)))
  {
    var s' := After(s, Track(t));
    forall k | k in s'.cache ensures TrackedSoon(s', k) {
      assert TrackedSoon(s, k);
      if u :| u in s.threads && s.threads[u].Added? && s.threads[u].key == k {
        assert u == t || s'.threads[u] == s.threads[u];
      }
    }
    forall u | u in s'.threads ensures PhaseInv(s', s'.threads[u]) {
      assert PhaseInv(s, s.threads[u]);
    }
  }

  lemma AfterKeepsInv(s: Shared, e: Event)
    requires Inv(s) && Enabled(s, e)
    ensures Inv(After(s, e))
  {
    match e
    case Hit(_) | FindOne(_, _, _) | PriceOne(_, _, _) =>
    case Miss(t, key, c) => ResolvingKeepsInv(s, t, key, c, true);
    case Refresh(t, key, c) => ResolvingKeepsInv(s, t, key, c, false);
    case Add(t) => AddKeepsInv(s, t);
    case Track(t) => TrackKeepsInv(s, t);
    case Evict(_) =>
      forall k | k in After(s, e).cache ensures TrackedSoon(After(s, e), k) { assert TrackedSoon(s, k); }
      forall u | u in s.threads ensures PhaseInv(After(s, e), s.threads[u]) { assert PhaseInv(s, s.threads[u]); }
  }

  lemma {:induction false} RunInv(states: seq<Shared>, events: seq<Event>, i: nat)
    requires Run(states, events) && i < |states|
    ensures Inv(states[i])
  {
    if i > 0 {
      RunInv(states, events, i - 1);
      AfterKeepsInv(states[i - 1], events[i - 1]);
    }
  }

  /**
   In every run each cached entry was resolved for that key from some catalogue
   met, its types and presets aligned; and when no query is under way every
   cached key is tracked for refreshing.
   */
  lemma CachedWasResolved(states: seq<Shared>, events: seq<Event>, i: nat, k: NodeClassKey)
    requires Run(states, events) && i < |states| && k in states[i].cache
    ensures FromSeen(states[i].seen, k, states[i].cache[k]) && Aligned(states[i].cache[k])
    ensures states[i].threads == map[] ==> k in states[i].active
  {
    RunInv(states, events, i);
    assert TrackedSoon(states[i], k);
    var c :| c in states[i].seen && Resolve(c, k) == Some(states[i].cache[k]);
  }

  ghost predicate Fixed(events: seq<Event>, cat: Catalogue) {
    forall i :: 0 <= i < |events| ==> Meets(events[i], cat)
  }

  predicate Asks(e: Event) { e.Miss? || e.Refresh? || e.FindOne? || e.PriceOne? }

  ghost predicate Meets(e: Event, cat: Catalogue) { Asks(e) ==> e.c == cat }

  lemma {:induction false} SeenIsFixed(states: seq<Shared>, events: seq<Event>, cat: Catalogue, i: nat)
    requires Run(states, events) && Fixed(events, cat) && i < |states|
    ensures forall c :: c in states[i].seen ==> c == cat
  {
    if i > 0 {
      SeenIsFixed(states, events, cat, i - 1);
      assert Meets(events[i - 1], cat);
      assert states[i] == After(states[i - 1], events[i - 1]);
    }
  }

  /**
   With a fixed catalogue every query of every run is answered as if nothing were
   cached: for types and selections the entry, for single presets and types these.
   */
  lemma CacheIsTransparent(states: seq<Shared>, events: seq<Event>, cat: Catalogue, i: nat)
    requires Run(states, events) && Fixed(events, cat) && i < |events|
    requires Answered(states[i], events[i]).Some?
    ensures IsUncached(cat, Answered(states[i], events[i]).value)
  {
    RunInv(states, events, i);
    SeenIsFixed(states, events, cat, i);
    var s := states[i];
    assert Meets(events[i], cat);
    match events[i]
    case Hit(key) => FromOnly(s.seen, cat, key, s.cache[key]);
    case Miss(_, _, _) =>
    case Track(t) =>
      assert PhaseInv(s, s.threads[t]);
      FromOnly(s.seen, cat, s.threads[t].key, s.threads[t].entry);
    case FindOne(key, name, _) =>
      CachedIsCurrent(s, cat, key);
      OnePresetAsUncached(s.cache, cat, key, name);
      if cat.list(key.projectID).Some? {
        FindsFirst(cat.list(key.projectID).value, name);
      }
    case PriceOne(key, p, _) =>
      CachedIsCurrent(s, cat, key);
      OneTypeAsUncached(s.cache, cat, key, p);
      DirectIsType(cat, key, p, DirectInstanceType(cat, key, p));
  }

  lemma CachedIsCurrent(s: Shared, cat: Catalogue, key: NodeClassKey)
    requires Inv(s) && forall c :: c in s.seen ==> c == cat
    ensures key in s.cache ==> Resolve(cat, key) == Some(s.cache[key])
  {
    if key in s.cache {
      FromOnly(s.seen, cat, key, s.cache[key]);
    }
  }
}
