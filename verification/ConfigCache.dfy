/** The fingerprint-validated cache of the configuration tree, with its racy-mtime rule. A
    load takes the fingerprint first and reads the files later; anything may be written in
    between. Times are in milliseconds. */
module ConfigCache {
  import opened Options

  type Content = seq<int>
  type Name = seq<int>

  datatype File = File(content: Content, mtime: nat)

  /** The files the configuration is read from; the networks directory may be missing. */
  datatype Files = Files(settings: Option<File>, dirMtime: Option<nat>, networks: map<Name, File>)

  /** What a full load returns; parsing is a function of these contents. */
  datatype Config = Config(settings: Option<Content>, networks: map<Name, Content>)

  datatype Stat = Stat(mtime: nat, len: nat)

  datatype Fingerprint = Fingerprint(
    settings: Option<Stat>,
    dirMtime: Option<nat>,
    networks: map<Name, Stat>,
    racy: bool)

  datatype Cached = Cached(config: Config, mark: Fingerprint)

  const RACY_WINDOW: nat := 2000

  function StatOf(f: File): Stat {
    Stat(f.mtime, |f.content|)
  }

  function StatOption(f: Option<File>): Option<Stat> {
    match f case None => None case Some(file) => Some(StatOf(file))
  }

  function FullLoad(fs: Files): Config {
    Config(match fs.settings case None => None case Some(file) => Some(file.content),
           map n | n in fs.networks :: fs.networks[n].content)
  }

  /** Less than the window before now. */
  predicate Recent(mtime: nat, now: nat, window: nat) {
    now - mtime < window
  }

  predicate AnyRecent(fs: Files, now: nat, window: nat) {
    || (fs.settings.Some? && Recent(fs.settings.value.mtime, now, window))
    || (fs.dirMtime.Some? && Recent(fs.dirMtime.value, now, window))
    || exists n :: n in fs.networks && Recent(fs.networks[n].mtime, now, window)
  }

  function TakeFingerprint(fs: Files, now: nat, window: nat): Fingerprint {
    Fingerprint(StatOption(fs.settings), fs.dirMtime, map n | n in fs.networks :: StatOf(fs.networks[n]),
                AnyRecent(fs, now, window))
  }

  /** The hot path: stat the settings, the directory and the files the entry names. */
  predicate Matches(fs: Files, p: Fingerprint) {
    && StatOption(fs.settings) == p.settings
    && fs.dirMtime == p.dirMtime
    && forall n :: n in p.networks ==> n in fs.networks && StatOf(fs.networks[n]) == p.networks[n]
  }

  predicate Hit(fs: Files, cache: Option<Cached>) {
    cache.Some? && !cache.value.mark.racy && Matches(fs, cache.value.mark)
  }

  /** What a load returns when nothing is written while it runs. */
  function Loaded(fs: Files, cache: Option<Cached>): Config {
    if Hit(fs, cache) then cache.value.config else FullLoad(fs)
  }

  /** The process-global cache. */
  class ConfigLoader {
    var cache: Option<Cached>

    constructor ()
      ensures cache == None
    {
      cache := None;
    }

    /** The files are `before` when the fingerprint is validated or taken, and `after` when
        they are read. */
    method Load(before: Files, now: nat, after: Files) returns (config: Config)
      modifies this
      ensures Hit(before, old(cache)) ==> cache == old(cache) && config == cache.value.config
      ensures !Hit(before, old(cache)) ==>
                config == FullLoad(after) && cache == Some(Cached(config, TakeFingerprint(before, now, RACY_WINDOW)))
      ensures before == after ==> config == Loaded(before, old(cache))
    {
      if cache.Some? && !cache.value.mark.racy && Matches(before, cache.value.mark) {
        return cache.value.config;
      }
      var mark := TakeFingerprint(before, now, RACY_WINDOW);
      config := FullLoad(after);
      cache := Some(Cached(config, mark));
    }
  }

  // ---------------------------------------------------------------- runs

  /** The kernel stamps from a coarse clock of `tick` milliseconds. */
  function Stamp(now: nat, tick: nat): (t: nat)
    requires tick >= 1
    ensures now - tick < t <= now
  {
    now - now % tick
  }

  /** The loads in progress, by who makes them, with the fingerprint each has taken. */
  datatype World = World(clock: nat, fs: Files, cache: Option<Cached>, pending: map<nat, Fingerprint>)

  /** Saves and removals rename into or out of the directory; an edit writes in place. */
  datatype Event =
    | Tick(millis: nat)
    | WriteSettings(content: Content)
    | RemoveSettings
    | SaveNetwork(name: Name, content: Content)
    | EditNetwork(name: Name, content: Content)
    | RemoveNetwork(name: Name)
    | BeginLoad(who: nat)
    | FinishLoad(who: nat)

  function Write(fs: Files, e: Event, stamp: nat): Files {
    match e
    case WriteSettings(content) => fs.(settings := Some(File(content, stamp)))
    case RemoveSettings => fs.(settings := None)
    case SaveNetwork(name, content) =>
      fs.(networks := fs.networks[name := File(content, stamp)], dirMtime := Some(stamp))
    case EditNetwork(name, content) =>
      if name in fs.networks then fs.(networks := fs.networks[name := File(content, stamp)]) else fs
    case RemoveNetwork(name) =>
      if name in fs.networks then fs.(networks := fs.networks - {name}, dirMtime := Some(stamp)) else fs
    case _ => fs
  }

  function Apply(w: World, e: Event, tick: nat, window: nat): World
    requires tick >= 1
  {
    match e
    case Tick(millis) => w.(clock := w.clock + millis)
    case BeginLoad(who) =>
      if Hit(w.fs, w.cache) then w
      else w.(pending := w.pending[who := TakeFingerprint(w.fs, w.clock, window)])
    case FinishLoad(who) =>
      if who !in w.pending then w
      else w.(cache := Some(Cached(FullLoad(w.fs), w.pending[who])), pending := w.pending - {who})
    case _ => w.(fs := Write(w.fs, e, Stamp(w.clock, tick)))
  }

  function Run(w: World, events: seq<Event>, tick: nat, window: nat): World
    requires tick >= 1
  {
    if events == [] then w
    else Apply(Run(w, events[..|events| - 1], tick, window), events[|events| - 1], tick, window)
  }

  /** A process starts with an empty cache over files stamped in the past. */
  ghost predicate Start(w: World) {
    w.cache.None? && w.pending == map[] && Stamped(w.fs, w.clock)
  }

  ghost predicate Stamped(fs: Files, clock: nat) {
    && (fs.settings.Some? ==> fs.settings.value.mtime <= clock)
    && (if fs.dirMtime.Some? then fs.dirMtime.value <= clock else fs.networks == map[])
    && forall n :: n in fs.networks ==> fs.networks[n].mtime <= clock
  }

  /** A load that finds settings where its fingerprint found none. */
  ghost predicate FindsNewSettings(w: World, e: Event) {
    e.FinishLoad? && e.who in w.pending && w.pending[e.who].settings.None? && w.fs.settings.Some?
  }

  /** Settings are never removed, or never appear while a load is running. */
  ghost predicate Orderly(w: World, events: seq<Event>, tick: nat, window: nat)
    requires tick >= 1
  {
    || (forall i :: 0 <= i < |events| ==> !events[i].RemoveSettings?)
    || (forall i :: 0 <= i < |events| ==> !FindsNewSettings(Run(w, events[..i], tick, window), events[i]))
  }

  /** A cached load returns exactly what a full reload would, after every orderly run. */
  ghost predicate Transparent(tick: nat, window: nat)
    requires tick >= 1
  {
    forall w: World, events: seq<Event> :: Start(w) && Orderly(w, events, tick, window) ==>
      Loaded(Run(w, events, tick, window).fs, Run(w, events, tick, window).cache)
        == FullLoad(Run(w, events, tick, window).fs)
  }

  // ---------------------------------------------------------------- the invariant

  /** Every mtime of a trusted fingerprint is already a window old. */
  ghost predicate Settled(p: Fingerprint, clock: nat, window: nat) {
    && (p.settings.Some? ==> p.settings.value.mtime + window <= clock)
    && (if p.dirMtime.Some? then p.dirMtime.value + window <= clock else p.networks == map[])
    && forall n :: n in p.networks ==> p.networks[n].mtime + window <= clock
  }

  /** As long as the directory has its recorded stamp, it holds the recorded names. */
  ghost predicate NamesFaithful(fs: Files, p: Fingerprint) {
    fs.dirMtime == p.dirMtime ==> fs.networks.Keys == p.networks.Keys
  }

  /** Whatever is there and still has its recorded stat still has the content that was read. */
  ghost predicate Faithful(fs: Files, c: Cached) {
    && NamesFaithful(fs, c.mark)
    && (fs.dirMtime == c.mark.dirMtime ==> fs.networks.Keys == c.config.networks.Keys)
    && (c.mark.settings.Some? && StatOption(fs.settings) == c.mark.settings ==>
          FullLoad(fs).settings == c.config.settings)
    && forall n :: n in c.mark.networks && n in fs.networks && StatOf(fs.networks[n]) == c.mark.networks[n] ==>
         n in c.config.networks && fs.networks[n].content == c.config.networks[n]
  }

  /** Settings were absent when fingerprinted and there when read. */
  ghost predicate AppearedMeanwhile(c: Cached) {
    c.mark.settings.None? && c.config.settings.Some?
  }

  ghost predicate TrustedMark(fs: Files, p: Fingerprint, clock: nat, window: nat) {
    !p.racy ==> Settled(p, clock, window) && NamesFaithful(fs, p)
  }

  ghost predicate Inv(w: World, window: nat) {
    && Stamped(w.fs, w.clock)
    && (forall who :: who in w.pending ==> TrustedMark(w.fs, w.pending[who], w.clock, window))
    && (w.cache.Some? && !w.cache.value.mark.racy ==>
        Settled(w.cache.value.mark, w.clock, window) && Faithful(w.fs, w.cache.value))
  }

  /** A write after a trusted fingerprint carries a strictly later stamp than anything in it,
      as long as the clock's grain is no coarser than the window. */
  lemma WriteIsLater(p: Fingerprint, clock: nat, tick: nat, window: nat)
    requires 1 <= tick <= window && Settled(p, clock, window)
    ensures p.settings.Some? ==> p.settings.value.mtime < Stamp(clock, tick)
    ensures p.dirMtime.Some? ==> p.dirMtime.value < Stamp(clock, tick)
    ensures forall n :: n in p.networks ==> p.networks[n].mtime < Stamp(clock, tick)
  {
  }

  lemma WriteKeepsFaithful(fs: Files, c: Cached, e: Event, clock: nat, tick: nat, window: nat)
    requires 1 <= tick <= window
    requires Settled(c.mark, clock, window) && Faithful(fs, c)
    ensures Faithful(Write(fs, e, Stamp(clock, tick)), c)
  {
    hide Stamp, Settled;
    WriteIsLater(c.mark, clock, tick, window);
  }

  lemma WriteKeepsNames(fs: Files, p: Fingerprint, e: Event, clock: nat, tick: nat, window: nat)
    requires 1 <= tick <= window && TrustedMark(fs, p, clock, window)
    ensures TrustedMark(Write(fs, e, Stamp(clock, tick)), p, clock, window)
  {
    if !p.racy {
      WriteIsLater(p, clock, tick, window);
    }
  }

  lemma WriteKeepsInv(w: World, e: Event, tick: nat, window: nat)
    requires 1 <= tick <= window && Inv(w, window)
    requires !e.Tick? && !e.BeginLoad? && !e.FinishLoad?
    ensures Inv(Apply(w, e, tick, window), window)
  {
    hide Faithful, Settled, TrustedMark;
    var fs := Write(w.fs, e, Stamp(w.clock, tick));
    forall who | who in w.pending ensures TrustedMark(fs, w.pending[who], w.clock, window) {
      WriteKeepsNames(w.fs, w.pending[who], e, w.clock, tick, window);
    }
    if w.cache.Some? && !w.cache.value.mark.racy {
      WriteKeepsFaithful(w.fs, w.cache.value, e, w.clock, tick, window);
    }
  }

  lemma MarkIsTrusted(fs: Files, clock: nat, window: nat)
    requires Stamped(fs, clock)
    ensures TrustedMark(fs, TakeFingerprint(fs, clock, window), clock, window)
  {
    assert forall n :: n in fs.networks && !AnyRecent(fs, clock, window) ==>
      !Recent(fs.networks[n].mtime, clock, window);
  }

  /** A load keeps the invariant when it ends, whatever was written since it began. */
  lemma LoadKeepsInv(w: World, e: Event, tick: nat, window: nat)
    requires 1 <= tick <= window && Inv(w, window) && (e.BeginLoad? || e.FinishLoad?)
    ensures Inv(Apply(w, e, tick, window), window)
  {
    hide TakeFingerprint, Hit;
    MarkIsTrusted(w.fs, w.clock, window);
    if e.FinishLoad? && e.who in w.pending {
      assert TrustedMark(w.fs, w.pending[e.who], w.clock, window);
    }
  }

  lemma TickKeepsInv(w: World, e: Event, tick: nat, window: nat)
    requires tick >= 1 && Inv(w, window) && e.Tick?
    ensures Inv(Apply(w, e, tick, window), window)
  {
    forall who | who in w.pending ensures TrustedMark(w.fs, w.pending[who], w.clock + e.millis, window) {
      assert TrustedMark(w.fs, w.pending[who], w.clock, window);
    }
  }

  lemma ApplyKeepsInv(w: World, e: Event, tick: nat, window: nat)
    requires 1 <= tick <= window && Inv(w, window)
    ensures Inv(Apply(w, e, tick, window), window)
  {
    hide Inv, Apply;
    match e {
      case Tick(_) => TickKeepsInv(w, e, tick, window);
      case BeginLoad(_) => LoadKeepsInv(w, e, tick, window);
      case FinishLoad(_) => LoadKeepsInv(w, e, tick, window);
      case _ => WriteKeepsInv(w, e, tick, window);
    }
  }

  lemma {:induction false} RunKeepsInv(w: World, events: seq<Event>, tick: nat, window: nat)
    requires 1 <= tick <= window && Inv(w, window)
    ensures Inv(Run(w, events, tick, window), window)
  {
    hide Inv, Apply;
    if events != [] {
      RunKeepsInv(w, events[..|events| - 1], tick, window);
      ApplyKeepsInv(Run(w, events[..|events| - 1], tick, window), events[|events| - 1], tick, window);
    }
  }

  /** A hit is the full load, except for settings that appeared while it ran. */
  lemma HitIsFullLoadIff(w: World, window: nat)
    requires Inv(w, window)
    ensures Loaded(w.fs, w.cache) == FullLoad(w.fs) <==> !(Hit(w.fs, w.cache) && AppearedMeanwhile(w.cache.value))
  {
    if Hit(w.fs, w.cache) {
      var c := w.cache.value;
      assert c.config.networks == FullLoad(w.fs).networks;
    }
  }

  /** Over every run of writes, saves, edits, removals and overlapping loads, with stamps no
      coarser than the window, a cached load returns exactly what a full reload would, also
      when something was written between a fingerprint and its read, with one exception:
      settings that appeared in between and have since been removed again. */
  lemma CachedLoadIsRightIff(w: World, events: seq<Event>, tick: nat, window: nat)
    requires 1 <= tick <= window && Start(w)
    ensures var end := Run(w, events, tick, window);
            Loaded(end.fs, end.cache) == FullLoad(end.fs) <==>
              !(Hit(end.fs, end.cache) && AppearedMeanwhile(end.cache.value))
  {
    RunKeepsInv(w, events, tick, window);
    HitIsFullLoadIff(Run(w, events, tick, window), window);
  }

  /** Settings that appeared in between are still there, unless removals are allowed. */
  ghost predicate Accounted(w: World, removals: bool) {
    w.cache.Some? && AppearedMeanwhile(w.cache.value) ==> !removals && w.fs.settings.Some?
  }

  lemma ApplyKeepsAccounted(w: World, e: Event, tick: nat, window: nat, removals: bool)
    requires tick >= 1 && Accounted(w, removals)
    requires if removals then !FindsNewSettings(w, e) else !e.RemoveSettings?
    ensures Accounted(Apply(w, e, tick, window), removals)
  {
    hide Hit, TakeFingerprint, Stamp;
  }

  lemma {:induction false} RunKeepsAccounted(w: World, events: seq<Event>, tick: nat, window: nat, removals: bool)
    requires tick >= 1 && Accounted(w, removals)
    requires forall i :: 0 <= i < |events| ==>
               if removals then !FindsNewSettings(Run(w, events[..i], tick, window), events[i])
               else !events[i].RemoveSettings?
    ensures Accounted(Run(w, events, tick, window), removals)
  {
    hide Accounted, Apply, FindsNewSettings;
    if events != [] {
      var n := |events| - 1;
      assert forall i :: 0 <= i < n ==> events[..n][..i] == events[..i];
      RunKeepsAccounted(w, events[..n], tick, window, removals);
      ApplyKeepsAccounted(Run(w, events[..n], tick, window), events[n], tick, window, removals);
    }
  }

  /** So over every orderly run a cached load is right. */
  lemma CacheIsTransparent(w: World, events: seq<Event>, tick: nat, window: nat)
    requires 1 <= tick <= window && Start(w) && Orderly(w, events, tick, window)
    ensures var end := Run(w, events, tick, window);
            Loaded(end.fs, end.cache) == FullLoad(end.fs)
  {
    hide FindsNewSettings, Loaded, Apply;
    var removals := !forall i :: 0 <= i < |events| ==> !events[i].RemoveSettings?;
    CachedLoadIsRightIff(w, events, tick, window);
    RunKeepsAccounted(w, events, tick, window, removals);
  }

  // ---------------------------------------------------------------- what each condition is for

  lemma RunOfThree(w: World, e0: Event, e1: Event, e2: Event, tick: nat, window: nat)
    requires tick >= 1
    ensures Run(w, [e0, e1, e2], tick, window) ==
            Apply(Apply(Apply(w, e0, tick, window), e1, tick, window), e2, tick, window)
  {
    hide Apply;
    var events := [e0, e1, e2];
    assert events[..2] == [e0, e1] && [e0, e1][..1] == [e0] && [e0][..0] == [];
    assert Run(w, [e0], tick, window) == Apply(w, e0, tick, window);
    assert Run(w, [e0, e1], tick, window) == Apply(Apply(w, e0, tick, window), e1, tick, window);
  }

  lemma RunOfFour(w: World, e0: Event, e1: Event, e2: Event, e3: Event, tick: nat, window: nat)
    requires tick >= 1
    ensures Run(w, [e0, e1, e2, e3], tick, window) ==
            Apply(Apply(Apply(Apply(w, e0, tick, window), e1, tick, window), e2, tick, window), e3, tick, window)
  {
    hide Apply;
    assert [e0, e1, e2, e3][..3] == [e0, e1, e2];
    RunOfThree(w, e0, e1, e2, tick, window);
  }

  /** With stamps coarser than the window, a write in the same tick as a trusted load is
      missed. A window of zero is the cache without the rule. */
  lemma StaleRun(tick: nat, window: nat) returns (w: World, events: seq<Event>)
    requires window < tick
    ensures Start(w) && Orderly(w, events, tick, window)
    ensures var end := Run(w, events, tick, window);
            Loaded(end.fs, end.cache) != FullLoad(end.fs)
  {
    w := World(window, Files(Some(File([1], 0)), None, map[]), None, map[]);
    events := [BeginLoad(0), FinishLoad(0), WriteSettings([2])];
    var begun := Apply(w, BeginLoad(0), tick, window);
    var loaded := Apply(begun, FinishLoad(0), tick, window);
    assert Stamp(window, tick) == 0;
    var end := Apply(loaded, WriteSettings([2]), tick, window);
    RunOfThree(w, BeginLoad(0), FinishLoad(0), WriteSettings([2]), tick, window);
    assert end.fs.settings == Some(File([2], 0));
    assert !loaded.cache.value.mark.racy;
    assert Matches(end.fs, loaded.cache.value.mark);
    assert loaded.cache.value.config.settings == Some([1]);
    assert FullLoad(end.fs).settings == Some([2]);
  }

  /** Over orderly runs the cache is transparent exactly when the stamps are no coarser than
      the window. */
  lemma TransparentIff(tick: nat, window: nat)
    requires tick >= 1
    ensures Transparent(tick, window) <==> tick <= window
  {
    if tick <= window {
      forall w: World, events: seq<Event> | Start(w) && Orderly(w, events, tick, window)
        ensures Loaded(Run(w, events, tick, window).fs, Run(w, events, tick, window).cache)
                  == FullLoad(Run(w, events, tick, window).fs)
      {
        CacheIsTransparent(w, events, tick, window);
      }
    } else {
      var w, events := StaleRun(tick, window);
    }
  }

  /** The loader's own window covers stamps of up to two seconds, and no coarser ones. */
  lemma LoaderIsTransparentIff(tick: nat)
    requires tick >= 1
    ensures Transparent(tick, RACY_WINDOW) <==> tick <= 2000
  {
    TransparentIff(tick, RACY_WINDOW);
  }

  /** The loader distrusts a fingerprint exactly when something was stamped less than two
      seconds before it, or later. */
  lemma LoaderDistrustsIff(fs: Files, now: nat)
    ensures TakeFingerprint(fs, now, RACY_WINDOW).racy <==>
              || (fs.settings.Some? && now < fs.settings.value.mtime + 2000)
              || (fs.dirMtime.Some? && now < fs.dirMtime.value + 2000)
              || exists n :: n in fs.networks && now < fs.networks[n].mtime + 2000
  {
    assert forall n :: n in fs.networks ==>
      (Recent(fs.networks[n].mtime, now, RACY_WINDOW) <==> now < fs.networks[n].mtime + 2000);
  }

  /** A file was and is missing, or was and is there with the same stamp and length. */
  ghost predicate LooksSame(was: Option<File>, is_: Option<File>) {
    if was.None? || is_.None? then was == is_
    else was.value.mtime == is_.value.mtime && |was.value.content| == |is_.value.content|
  }

  /** When the loader serves what it read at `was` without reading again: nothing was stamped
      less than two seconds before, and settings, directory stamp and every network file look
      the same. */
  lemma ServedIff(was: Files, now: nat, config: Config, fs: Files)
    ensures Hit(fs, Some(Cached(config, TakeFingerprint(was, now, RACY_WINDOW)))) <==>
              && !TakeFingerprint(was, now, RACY_WINDOW).racy
              && LooksSame(was.settings, fs.settings) && was.dirMtime == fs.dirMtime
              && forall n :: n in was.networks ==>
                   n in fs.networks && LooksSame(Some(was.networks[n]), Some(fs.networks[n]))
  {
    var mark := TakeFingerprint(was, now, RACY_WINDOW);
    assert forall n :: n in was.networks && n in fs.networks ==>
      (StatOf(fs.networks[n]) == mark.networks[n] <==> LooksSame(Some(was.networks[n]), Some(fs.networks[n])));
  }

  /** Load, one write stamped at a grain of at most two seconds, load again: the second load
      returns the new files, also when the write falls into the stamp of the first load. */
  method LoadWriteLoad(loader: ConfigLoader, fs: Files, now: nat, e: Event, at: nat, tick: nat, later: nat)
    returns (first: Config, second: Config)
    requires loader.cache == None && Stamped(fs, now) && now <= at && 1 <= tick <= 2000
    requires !e.Tick? && !e.BeginLoad? && !e.FinishLoad?
    modifies loader
    ensures first == FullLoad(fs) && second == FullLoad(Write(fs, e, Stamp(at, tick)))
  {
    first := loader.Load(fs, now, fs);
    ghost var c := loader.cache.value;
    var written := Write(fs, e, Stamp(at, tick));
    MarkIsTrusted(fs, now, RACY_WINDOW);
    if !c.mark.racy {
      assert Settled(c.mark, at, RACY_WINDOW);
      WriteKeepsFaithful(fs, c, e, at, tick, RACY_WINDOW);
    }
    second := loader.Load(written, later, written);
    if Hit(written, Some(c)) {
      assert c.config.networks == FullLoad(written).networks;
    }
  }

  /** What a full load shows of the files, and of each change to them. */
  lemma FullLoadShows(fs: Files, e: Event, stamp: nat)
    ensures var before, after := FullLoad(fs), FullLoad(Write(fs, e, stamp));
            && (before.settings.Some? <==> fs.settings.Some?)
            && (fs.settings.Some? ==> before.settings.value == fs.settings.value.content)
            && before.networks.Keys == fs.networks.Keys
            && (forall n :: n in fs.networks ==> before.networks[n] == fs.networks[n].content)
            && (e.WriteSettings? ==> after == before.(settings := Some(e.content)))
            && (e.RemoveSettings? ==> after == before.(settings := None))
            && (e.SaveNetwork? ==> after == before.(networks := before.networks[e.name := e.content]))
            && (e.EditNetwork? && e.name in fs.networks ==>
                  after == before.(networks := before.networks[e.name := e.content]))
            && (e.EditNetwork? && e.name !in fs.networks ==> after == before)
            && (e.RemoveNetwork? ==> after == before.(networks := before.networks - {e.name}))
  {
  }

  /** What a change stamps: the file it writes, and the directory exactly when it changes
      which files there are. */
  lemma WriteStamps(fs: Files, e: Event, stamp: nat)
    ensures var after := Write(fs, e, stamp);
            && (e.WriteSettings? ==> after.settings.value.mtime == stamp)
            && ((e.SaveNetwork? || e.EditNetwork?) && e.name in after.networks ==>
                  after.networks[e.name].mtime == stamp)
            && (after.dirMtime ==
                  if e.SaveNetwork? || (e.RemoveNetwork? && e.name in fs.networks) then Some(stamp) else fs.dirMtime)
            && (!e.WriteSettings? && !e.RemoveSettings? ==> after.settings == fs.settings)
            && forall n :: n in fs.networks && n in after.networks && after.networks[n] != fs.networks[n] ==>
                 (e.SaveNetwork? || e.EditNetwork?) && e.name == n
  {
  }

  /** Settings that appear while a load runs and are removed afterwards are still served, at
      any grain and window: their absence is all the fingerprint recorded. */
  lemma RemovedSettingsAreServed(tick: nat, window: nat, c: Content) returns (w: World, events: seq<Event>)
    requires tick >= 1
    ensures Start(w)
    ensures var end := Run(w, events, tick, window);
            Loaded(end.fs, end.cache).settings == Some(c) && FullLoad(end.fs).settings == None
  {
    w := World(window, Files(None, None, map[]), None, map[]);
    var e0, e1, e2, e3 := BeginLoad(0), WriteSettings(c), FinishLoad(0), RemoveSettings;
    events := [e0, e1, e2, e3];
    RunOfFour(w, e0, e1, e2, e3, tick, window);
    var w2 := Apply(Apply(w, e0, tick, window), e1, tick, window);
    var mark := Fingerprint(None, None, map[], false);
    assert TakeFingerprint(w.fs, window, window) == mark;
    assert w2.pending[0] == mark;
    var end := Apply(Apply(w2, e2, tick, window), e3, tick, window);
    assert end.cache.value.config.settings == Some(c);
    assert Matches(end.fs, mark);
  }

  /** Read first and fingerprint afterwards, as the code takes care not to: a write in
      between is recorded against the old contents and served for ever. */
  lemma ReverseOrderIsStale(before: Files, after: Files, now: nat, window: nat)
    requires FullLoad(before) != FullLoad(after) && !AnyRecent(after, now, window)
    ensures var cache := Some(Cached(FullLoad(before), TakeFingerprint(after, now, window)));
            Hit(after, cache) && Loaded(after, cache) != FullLoad(after)
  {
  }

  // ---------------------------------------------------------------- and the cache is used

  /** Once every file is a window old, a load is followed by hits until the next write. */
  lemma {:induction false} SettledFilesAreServed(w: World, who: nat, events: seq<Event>, tick: nat, window: nat)
    requires tick >= 1 && !AnyRecent(w.fs, w.clock, window) && w.pending == map[]
    requires forall i :: 0 <= i < |events| ==> events[i].Tick? || events[i].BeginLoad? || events[i].FinishLoad?
    ensures var loaded := Apply(Apply(w, BeginLoad(who), tick, window), FinishLoad(who), tick, window);
            var end := Run(loaded, events, tick, window);
            end.fs == w.fs && end.pending == map[] && Hit(end.fs, end.cache)
  {
    if events != [] {
      SettledFilesAreServed(w, who, events[..|events| - 1], tick, window);
    } else {
      var begun := Apply(w, BeginLoad(who), tick, window);
      assert begun.pending - {who} == map[];
    }
  }
}
