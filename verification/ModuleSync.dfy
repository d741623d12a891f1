/** The module synchronizer (`std-data-sync-module`): an image is complete when every expected
    module has sent its frame once; images leave in the order of their ids.  Both methods
    hold the mutex, so that runs are sequences of calls. */
module ModuleSync {
  import opened Wrappers

  datatype Frame = Frame(id: nat, mod: nat, missing: nat)

  /** The modules an image still waits for, and the frame that came first. */
  datatype Entry = Entry(id: nat, mask: set<nat>, meta: Frame)

  datatype Config = Config(modules: nat, capacity: nat, expected: set<nat>)

  /** The ordered map: entries by ascending id. */
  type Cache = seq<Entry>

  ghost predicate Sorted(c: Cache) {
    forall i, j :: 0 <= i < j < |c| ==> c[i].id < c[j].id
  }

  /** Where `id` is, or where it would be inserted. */
  function Place(c: Cache, id: nat): (k: nat)
    ensures k <= |c|
    ensures forall i :: 0 <= i < k ==> c[i].id < id
    ensures k < |c| ==> c[k].id >= id
  {
    if c == [] || c[0].id >= id then 0 else Place(c[1..], id) + 1
  }

  predicate Has(c: Cache, id: nat) {
    Place(c, id) < |c| && c[Place(c, id)].id == id
  }

  /** In a sorted cache `Place` finds every id. */
  lemma HasAll(c: Cache, i: nat)
    requires Sorted(c) && i < |c|
    ensures Has(c, c[i].id) && Place(c, c[i].id) == i
  {
    var k := Place(c, c[i].id);
    assert !(k < i) && !(i < k);
  }

  function Insert(c: Cache, e: Entry): Cache {
    var k := Place(c, e.id);
    c[..k] + [e] + c[k..]
  }

  function RemoveAt(c: Cache, k: nat): Cache
    requires k < |c|
  {
    c[..k] + c[k + 1..]
  }

  function TooLong(cfg: Config, c: Cache): bool { |c| > cfg.capacity }

  /** `push_new_image_to_queue`. */
  function MakeRoom(cfg: Config, c: Cache): Cache {
    if TooLong(cfg, c) then RemoveAt(c, 0) else c
  }

  function Push(cfg: Config, c: Cache, f: Frame): (Cache, nat)
    requires cfg.modules > 0
  {
    var c' := Insert(MakeRoom(cfg, c), Entry(f.id, cfg.expected - {f.mod % cfg.modules}, f));
    (c', if TooLong(cfg, c') then 1 else 0)
  }

  /** `update_module_mask_for_image`. */
  function Update(cfg: Config, c: Cache, f: Frame): (Cache, nat)
    requires cfg.modules > 0 && Has(c, f.id)
  {
    var k, m := Place(c, f.id), f.mod % cfg.modules;
    if m !in c[k].mask then (RemoveAt(c, k), 1)
    else (c[k := c[k].(mask := c[k].mask - {m})], 0)
  }

  /** `process_image_metadata`. */
  function Process(cfg: Config, c: Cache, f: Frame): (Cache, nat)
    requires cfg.modules > 0
  {
    if Has(c, f.id) then Update(cfg, c, f) else Push(cfg, c, f)
  }

  /** `pop_next_full_image`. */
  function PopNext(c: Cache): (Cache, Option<Frame>) {
    if c == [] || c[0].mask != {} then (c, None) else (c[1..], Some(c[0].meta))
  }

  // ---- The ordered map ----

  lemma InsertSorted(c: Cache, e: Entry)
    requires Sorted(c) && !Has(c, e.id)
    ensures Sorted(Insert(c, e))
  {
    var k, c' := Place(c, e.id), Insert(c, e);
    forall i, j | 0 <= i < j < |c'|
      ensures c'[i].id < c'[j].id
    {
      assert k < |c| ==> c[k].id > e.id;
      if i > k { assert c'[i] == c[i - 1] && c'[j] == c[j - 1]; }
      else if j > k { assert c'[j] == c[j - 1]; }
    }
  }

  lemma InsertHolds(c: Cache, e: Entry, x: Entry)
    ensures x in Insert(c, e) <==> x in c || x == e
  {
    var k := Place(c, e.id);
    assert c == c[..k] + c[k..];
  }

  lemma RemoveSorted(c: Cache, k: nat)
    requires Sorted(c) && k < |c|
    ensures Sorted(RemoveAt(c, k))
  {
    var c' := RemoveAt(c, k);
    forall i, j | 0 <= i < j < |c'|
      ensures c'[i].id < c'[j].id
    {
      assert c'[i] == (if i < k then c[i] else c[i + 1]) && c'[j] == (if j < k then c[j] else c[j + 1]);
    }
  }

  lemma RemoveHolds(c: Cache, k: nat, x: Entry)
    requires Sorted(c) && k < |c|
    ensures x in RemoveAt(c, k) <==> x in c && x.id != c[k].id
  {
    var c' := RemoveAt(c, k);
    if x in c {
      var i :| 0 <= i < |c| && c[i] == x;
      if i < k { assert c'[i] == x; } else if i > k { assert c'[i - 1] == x; }
    }
    if x in c' {
      var i :| 0 <= i < |c'| && c'[i] == x;
      assert x == (if i < k then c[i] else c[i + 1]);
    }
  }

  // ---- Runs ----

  datatype Op = Arrive(frame: Frame) | Pop

  /** A run: `got` are the modules that have come for each cached image since its entry was
      created, `first` is the frame that created it, `removed` counts the entries that left
      without being popped, `returned` adds up the results of `process_image_metadata`. */
  datatype Run = Run(cache: Cache, got: map<nat, seq<nat>>, first: map<nat, Frame>, popped: seq<Frame>, removed: nat,
                     returned: nat)

  function Arrived(cfg: Config, r: Run, f: Frame): Run
    requires cfg.modules > 0
  {
    var (c', n) := Process(cfg, r.cache, f);
    var m := f.mod % cfg.modules;
    var before := if f.id in r.got && Has(r.cache, f.id) then r.got[f.id] else [];
    Run(c', r.got[f.id := before + [m]], if Has(r.cache, f.id) then r.first else r.first[f.id := f], r.popped,
        r.removed + Lost(cfg, r.cache, f), r.returned + n)
  }

  /** How many entries a call removes. */
  function Lost(cfg: Config, c: Cache, f: Frame): nat
    requires cfg.modules > 0
  {
    if Has(c, f.id) then (if f.mod % cfg.modules in c[Place(c, f.id)].mask then 0 else 1)
    else if TooLong(cfg, c) then 1 else 0
  }

  /** A call creates an entry when the image is new and removes as many as are counted lost. */
  lemma EntriesBalance(cfg: Config, c: Cache, f: Frame)
    requires cfg.modules > 0
    ensures |Process(cfg, c, f).0| == |c| + (if Has(c, f.id) then 0 else 1) - Lost(cfg, c, f)
  {
  }

  function Popped(r: Run): Run {
    var (c', f) := PopNext(r.cache);
    r.(cache := c', popped := if f.Some? then r.popped + [f.value] else r.popped)
  }

  function Step(cfg: Config, r: Run, op: Op): Run
    requires cfg.modules > 0
  {
    match op case Arrive(f) => Arrived(cfg, r, f) case Pop => Popped(r)
  }

  /** The calls `ops` from the run `r` on. */
  function RunFrom(cfg: Config, r: Run, ops: seq<Op>): Run
    requires cfg.modules > 0
  {
    if ops == [] then r else Step(cfg, RunFrom(cfg, r, ops[..|ops| - 1]), ops[|ops| - 1])
  }

  function RunOf(cfg: Config, ops: seq<Op>): Run
    requires cfg.modules > 0
  {
    RunFrom(cfg, Run([], map[], map[], [], 0, 0), ops)
  }

  /** Of the expected modules, those in the mask have not come and the others have come once. */
  ghost predicate Consistent(cfg: Config, mask: set<nat>, got: seq<nat>) {
    forall x :: x in cfg.expected ==> multiset(got)[x] == if x in mask then 0 else 1
  }

  ghost predicate EntryOk(cfg: Config, got: map<nat, seq<nat>>, e: Entry) {
    e.meta.id == e.id && e.mask <= cfg.expected && e.id in got && Consistent(cfg, e.mask, got[e.id])
  }

  ghost predicate EntriesOk(cfg: Config, c: Cache, got: map<nat, seq<nat>>) {
    forall e :: e in c ==> EntryOk(cfg, got, e)
  }

  ghost predicate Inv(cfg: Config, r: Run) {
    && Sorted(r.cache) && |r.cache| <= cfg.capacity + 1
    && EntriesOk(cfg, r.cache, r.got)
    && r.removed <= r.returned
  }

  // ---- What every call keeps ----

  /** `Has` is about the entries. */
  lemma HasEntry(c: Cache, e: Entry)
    requires Sorted(c) && e in c
    ensures Has(c, e.id) && c[Place(c, e.id)] == e
  {
    var i :| 0 <= i < |c| && c[i] == e;
    HasAll(c, i);
  }

  lemma RoomMade(cfg: Config, c: Cache, id: nat)
    requires Sorted(c) && |c| <= cfg.capacity + 1 && !Has(c, id)
    ensures Sorted(MakeRoom(cfg, c)) && |MakeRoom(cfg, c)| <= cfg.capacity && !Has(MakeRoom(cfg, c), id)
    ensures forall e :: e in MakeRoom(cfg, c) ==> e in c && e.id != id
  {
    var c' := MakeRoom(cfg, c);
    if TooLong(cfg, c) { RemoveSorted(c, 0); }
    forall e | e in c'
      ensures e in c && e.id != id
    {
      if TooLong(cfg, c) { RemoveHolds(c, 0, e); }
      HasEntry(c, e);
    }
  }

  lemma Pushed(cfg: Config, r: Run, f: Frame)
    requires cfg.modules > 0 && Inv(cfg, r) && !Has(r.cache, f.id)
    ensures var r' := Arrived(cfg, r, f);
            Sorted(r'.cache) && |r'.cache| <= cfg.capacity + 1 && r'.removed <= r'.returned
  {
    var c, m := MakeRoom(cfg, r.cache), f.mod % cfg.modules;
    RoomMade(cfg, r.cache, f.id);
    InsertSorted(c, Entry(f.id, cfg.expected - {m}, f));
  }

  lemma FirstModule(cfg: Config, m: nat)
    ensures Consistent(cfg, cfg.expected - {m}, [m])
  {
  }

  lemma NewEntryOk(cfg: Config, got: map<nat, seq<nat>>, f: Frame, m: nat)
    requires f.id in got && got[f.id] == [m]
    ensures EntryOk(cfg, got, Entry(f.id, cfg.expected - {m}, f))
  {
    FirstModule(cfg, m);
  }

  lemma EntryStays(cfg: Config, got: map<nat, seq<nat>>, id: nat, mods: seq<nat>, x: Entry)
    requires EntryOk(cfg, got, x) && x.id != id
    ensures EntryOk(cfg, got[id := mods], x)
  {
  }

  lemma EntriesInserted(cfg: Config, c: Cache, got: map<nat, seq<nat>>, f: Frame, m: nat)
    requires forall x :: x in c ==> EntryOk(cfg, got, x) && x.id != f.id
    ensures EntriesOk(cfg, Insert(c, Entry(f.id, cfg.expected - {m}, f)), got[f.id := [m]])
  {
    var e, got' := Entry(f.id, cfg.expected - {m}, f), got[f.id := [m]];
    NewEntryOk(cfg, got', f, m);
    forall x | x in Insert(c, e)
      ensures EntryOk(cfg, got', x)
    {
      InsertHolds(c, e, x);
      if x in c { EntryStays(cfg, got, f.id, [m], x); }
    }
  }

  lemma PushedEntries(cfg: Config, r: Run, f: Frame)
    requires cfg.modules > 0 && Inv(cfg, r) && !Has(r.cache, f.id)
    ensures EntriesOk(cfg, Arrived(cfg, r, f).cache, Arrived(cfg, r, f).got)
  {
    RoomMade(cfg, r.cache, f.id);
    EntriesInserted(cfg, MakeRoom(cfg, r.cache), r.got, f, f.mod % cfg.modules);
    assert [] + [f.mod % cfg.modules] == [f.mod % cfg.modules];
  }

  lemma Duplicate(cfg: Config, r: Run, f: Frame)
    requires cfg.modules > 0 && Inv(cfg, r) && Has(r.cache, f.id)
    requires f.mod % cfg.modules !in r.cache[Place(r.cache, f.id)].mask
    ensures Inv(cfg, Arrived(cfg, r, f))
  {
    var c, k, r' := r.cache, Place(r.cache, f.id), Arrived(cfg, r, f);
    RemoveSorted(c, k);
    forall x | x in r'.cache
      ensures EntryOk(cfg, r'.got, x)
    {
      RemoveHolds(c, k, x);
      assert EntryOk(cfg, r.got, x);
    }
  }

  lemma OneMore(cfg: Config, mask: set<nat>, got: seq<nat>, m: nat)
    requires Consistent(cfg, mask, got) && m in mask
    ensures Consistent(cfg, mask - {m}, got + [m])
  {
  }

  lemma Expected(cfg: Config, r: Run, f: Frame)
    requires cfg.modules > 0 && Inv(cfg, r) && Has(r.cache, f.id)
    requires f.mod % cfg.modules in r.cache[Place(r.cache, f.id)].mask
    ensures Inv(cfg, Arrived(cfg, r, f))
  {
    var c, k, m, r' := r.cache, Place(r.cache, f.id), f.mod % cfg.modules, Arrived(cfg, r, f);
    assert r'.cache == c[k := c[k].(mask := c[k].mask - {m})];
    assert EntryOk(cfg, r.got, c[k]);
    OneMore(cfg, c[k].mask, r.got[f.id], m);
    forall x | x in r'.cache
      ensures EntryOk(cfg, r'.got, x)
    {
      var i :| 0 <= i < |c| && r'.cache[i] == x;
      assert EntryOk(cfg, r.got, c[i]);
      if i != k {
        HasAll(c, i);
        assert x.id != f.id;
      }
    }
  }

  lemma ArrivedKeeps(cfg: Config, r: Run, f: Frame)
    requires cfg.modules > 0 && Inv(cfg, r)
    ensures Inv(cfg, Arrived(cfg, r, f))
  {
    if !Has(r.cache, f.id) {
      Pushed(cfg, r, f);
      PushedEntries(cfg, r, f);
    } else if f.mod % cfg.modules in r.cache[Place(r.cache, f.id)].mask {
      Expected(cfg, r, f);
    } else {
      Duplicate(cfg, r, f);
    }
  }

  lemma PoppedKeeps(cfg: Config, r: Run)
    requires Inv(cfg, r)
    ensures Inv(cfg, Popped(r))
  {
    var c := r.cache;
    if c != [] {
      assert forall x :: x in c[1..] ==> x in c;
    }
  }

  lemma {:induction false} RunFromKeeps(cfg: Config, r: Run, ops: seq<Op>)
    requires cfg.modules > 0 && Inv(cfg, r)
    ensures Inv(cfg, RunFrom(cfg, r, ops))
  {
    if ops != [] {
      var n := |ops| - 1;
      RunFromKeeps(cfg, r, ops[..n]);
      match ops[n]
      case Arrive(f) => ArrivedKeeps(cfg, RunFrom(cfg, r, ops[..n]), f);
      case Pop => PoppedKeeps(cfg, RunFrom(cfg, r, ops[..n]));
    }
  }

  lemma RunKeeps(cfg: Config, ops: seq<Op>)
    requires cfg.modules > 0
    ensures Inv(cfg, RunOf(cfg, ops))
  {
    RunFromKeeps(cfg, Run([], map[], map[], [], 0, 0), ops);
  }

  /** After any calls, the cache holds at most one image more than its size, an image that is
      popped has the least cached id, is represented by the frame that came first and has
      received every expected module exactly once since its entry was created, and no more
      entries have been lost than were reported. */
  lemma PoppedIsComplete(cfg: Config, ops: seq<Op>, f: Frame)
    requires cfg.modules > 0 && PopNext(RunOf(cfg, ops).cache).1 == Some(f)
    ensures var r := RunOf(cfg, ops);
            && |r.cache| <= cfg.capacity + 1 && r.removed <= r.returned
            && r.cache != [] && f.id == r.cache[0].id && f.id in r.first && f == r.first[f.id]
            && (forall i :: 1 <= i < |r.cache| ==> f.id < r.cache[i].id)
            && f.id in r.got
            && (forall x :: x in cfg.expected ==> multiset(r.got[f.id])[x] == 1)
  {
    RunKeeps(cfg, ops);
    RunKeepsFirst(cfg, ops);
    var r := RunOf(cfg, ops);
    assert r.cache[0] in r.cache;
    assert EntryOk(cfg, r.got, r.cache[0]);
  }

  /** And the other way round: after any calls, the first image is popped, and only then, if every
      expected module has come for it once. */
  lemma CompleteIsPopped(cfg: Config, ops: seq<Op>)
    requires cfg.modules > 0
    ensures var r := RunOf(cfg, ops);
            var (c', image) := PopNext(r.cache);
            && (r.cache != [] ==> r.cache[0].id in r.got)
            && (image.Some? <==>
                  r.cache != [] && forall x :: x in cfg.expected ==> multiset(r.got[r.cache[0].id])[x] == 1)
            && c' == if image.Some? then r.cache[1..] else r.cache
  {
    RunKeeps(cfg, ops);
    var r := RunOf(cfg, ops);
    if r.cache != [] {
      var e := r.cache[0];
      assert e in r.cache && EntryOk(cfg, r.got, e);
      if e.mask != {} {
        var x :| x in e.mask;
        assert multiset(r.got[e.id])[x] == 0;
      }
    }
  }

  /** A frame leaves the entries of other images as they are, but for the oldest one, which goes
      exactly when a new image comes while there are more than the cache is meant to hold. */
  lemma OthersStay(cfg: Config, c: Cache, f: Frame, x: Entry)
    requires cfg.modules > 0 && Sorted(c) && x in c && x.id != f.id
    ensures x in Process(cfg, c, f).0 <==> !(!Has(c, f.id) && |c| > cfg.capacity && x == c[0])
  {
    var k := Place(c, f.id);
    if Has(c, f.id) {
      if f.mod % cfg.modules !in c[k].mask {
        RemoveHolds(c, k, x);
      } else {
        var i :| 0 <= i < |c| && c[i] == x;
        assert Process(cfg, c, f).0[i] == x;
      }
    } else {
      InsertHolds(MakeRoom(cfg, c), Entry(f.id, cfg.expected - {f.mod % cfg.modules}, f), x);
      if |c| > cfg.capacity {
        RemoveHolds(c, 0, x);
        HasEntry(c, x);
        HasAll(c, 0);
      }
    }
  }

  /** What is reported: the entries that are lost, and one more when the new image takes the
      cache above its size, which is before anything has been lost. */
  lemma ReportedEarly(cfg: Config, ops: seq<Op>, f: Frame)
    requires cfg.modules > 0
    ensures var c := RunOf(cfg, ops).cache;
            Process(cfg, c, f).1
            == Lost(cfg, c, f) + (if !Has(c, f.id) && |c| == cfg.capacity then 1 else 0)
  {
    RunKeeps(cfg, ops);
  }

  /** Every entry keeps the frame that created it. */
  ghost predicate KeepsFirst(r: Run) {
    forall e :: e in r.cache ==> e.id in r.first && e.meta == r.first[e.id]
  }

  lemma ArrivedKeepsFirst(cfg: Config, r: Run, f: Frame)
    requires cfg.modules > 0 && Inv(cfg, r) && KeepsFirst(r)
    ensures KeepsFirst(Arrived(cfg, r, f))
  {
    var c, k, r' := r.cache, Place(r.cache, f.id), Arrived(cfg, r, f);
    forall x | x in r'.cache
      ensures x.id in r'.first && x.meta == r'.first[x.id]
    {
      if !Has(c, f.id) {
        RoomMade(cfg, c, f.id);
        InsertHolds(MakeRoom(cfg, c), Entry(f.id, cfg.expected - {f.mod % cfg.modules}, f), x);
      } else if f.mod % cfg.modules !in c[k].mask {
        RemoveHolds(c, k, x);
      } else {
        var i :| 0 <= i < |c| && r'.cache[i] == x;
        assert c[i] in c && c[i].id == x.id && c[i].meta == x.meta;
      }
    }
  }

  lemma {:induction false} RunKeepsFirst(cfg: Config, ops: seq<Op>)
    requires cfg.modules > 0
    ensures KeepsFirst(RunOf(cfg, ops))
  {
    if ops != [] {
      var n := |ops| - 1;
      var r := RunOf(cfg, ops[..n]);
      RunKeepsFirst(cfg, ops[..n]);
      RunKeeps(cfg, ops[..n]);
      match ops[n]
      case Arrive(f) => ArrivedKeepsFirst(cfg, r, f);
      case Pop => assert forall x :: x in Popped(r).cache ==> x in r.cache;
    }
  }

  // ---- The order of the images ----

  ghost predicate Above(c: Cache, popped: seq<Frame>) {
    popped != [] ==> forall e :: e in c ==> popped[|popped| - 1].id < e.id
  }

  ghost predicate Increasing(popped: seq<Frame>) {
    forall i, j :: 0 <= i < j < |popped| ==> popped[i].id < popped[j].id
  }

  predicate Newer(popped: seq<Frame>, id: nat) {
    popped != [] ==> popped[|popped| - 1].id < id
  }

  /** No entry is inserted for an image that is not newer than those popped before. */
  ghost predicate NoneLate(cfg: Config, r: Run, ops: seq<Op>)
    requires cfg.modules > 0
  {
    forall n :: 0 <= n < |ops| ==> InTime(RunFrom(cfg, r, ops[..n]), ops[n])
  }

  predicate InTime(r: Run, op: Op) {
    op.Pop? || Has(r.cache, op.frame.id) || Newer(r.popped, op.frame.id)
  }

  lemma ArrivedAbove(cfg: Config, r: Run, f: Frame)
    requires cfg.modules > 0 && Inv(cfg, r) && Above(r.cache, r.popped) && InTime(r, Arrive(f))
    ensures Above(Arrived(cfg, r, f).cache, r.popped)
  {
    var c' := Arrived(cfg, r, f).cache;
    if Has(r.cache, f.id) { assert r.cache[Place(r.cache, f.id)] in r.cache; }
    forall x | x in c'
      ensures r.popped != [] ==> r.popped[|r.popped| - 1].id < x.id
    {
      ArrivedFrom(cfg, r, f, x);
    }
  }

  /** Every entry has the id of an earlier entry or of the frame. */
  lemma ArrivedFrom(cfg: Config, r: Run, f: Frame, x: Entry)
    requires cfg.modules > 0 && Inv(cfg, r) && x in Arrived(cfg, r, f).cache
    ensures x.id == f.id || exists e :: e in r.cache && e.id == x.id
  {
    var c, k := r.cache, Place(r.cache, f.id);
    if !Has(c, f.id) {
      RoomMade(cfg, c, f.id);
      InsertHolds(MakeRoom(cfg, c), Entry(f.id, cfg.expected - {f.mod % cfg.modules}, f), x);
    } else if f.mod % cfg.modules !in c[k].mask {
      RemoveHolds(c, k, x);
    } else {
      var i :| 0 <= i < |c| && Arrived(cfg, r, f).cache[i] == x;
      assert c[i] in c && c[i].id == x.id;
    }
  }

  lemma PoppedAbove(cfg: Config, r: Run)
    requires Inv(cfg, r) && Above(r.cache, r.popped) && Increasing(r.popped)
    ensures Above(Popped(r).cache, Popped(r).popped) && Increasing(Popped(r).popped)
  {
    var c := r.cache;
    if c != [] && c[0].mask == {} {
      assert c[0] in c && EntryOk(cfg, r.got, c[0]);
      forall x | x in c[1..]
        ensures c[0].id < x.id
      {
        var i :| 0 <= i < |c| - 1 && c[1..][i] == x;
        assert x == c[i + 1];
      }
    }
  }

  lemma {:induction false} PopsFromIncrease(cfg: Config, r: Run, ops: seq<Op>)
    requires cfg.modules > 0 && Inv(cfg, r) && r.popped == [] && NoneLate(cfg, r, ops)
    ensures Increasing(RunFrom(cfg, r, ops).popped)
    ensures Above(RunFrom(cfg, r, ops).cache, RunFrom(cfg, r, ops).popped)
  {
    if ops != [] {
      var n := |ops| - 1;
      assert NoneLate(cfg, r, ops[..n]) by {
        assert forall i :: 0 <= i < n ==> ops[..n][..i] == ops[..i];
      }
      PopsFromIncrease(cfg, r, ops[..n]);
      RunFromKeeps(cfg, r, ops[..n]);
      var r' := RunFrom(cfg, r, ops[..n]);
      assert InTime(r', ops[n]);
      match ops[n]
      case Arrive(f) => ArrivedAbove(cfg, r', f);
      case Pop => PoppedAbove(cfg, r');
    }
  }

  /** Calls do not depend on what has been popped before them. */
  lemma {:induction false} ForgetsPopped(cfg: Config, r: Run, ops: seq<Op>)
    requires cfg.modules > 0
    ensures var (a, b) := (RunFrom(cfg, r, ops), RunFrom(cfg, r.(popped := []), ops));
            a == b.(popped := r.popped + b.popped)
  {
    if ops != [] { ForgetsPopped(cfg, r, ops[..|ops| - 1]); }
  }

  lemma RunFromStep(cfg: Config, r: Run, ops: seq<Op>, op: Op)
    requires cfg.modules > 0
    ensures RunFrom(cfg, r, ops + [op]) == Step(cfg, RunFrom(cfg, r, ops), op)
  {
    assert (ops + [op])[..|ops|] == ops;
  }

  lemma PrefixStep(cfg: Config, r: Run, m: Run, all: seq<Op>, ops: seq<Op>, op: Op)
    requires cfg.modules > 0 && RunFrom(cfg, r, all) == RunFrom(cfg, m, ops)
    ensures RunFrom(cfg, r, all + [op]) == RunFrom(cfg, m, ops + [op])
  {
    RunFromStep(cfg, r, all, op);
    RunFromStep(cfg, m, ops, op);
  }

  lemma LastOp(prefix: seq<Op>, ops: seq<Op>) returns (before: seq<Op>, op: Op)
    requires ops != []
    ensures |before| < |ops| && ops == before + [op] && prefix + ops == prefix + before + [op]
  {
    before, op := ops[..|ops| - 1], ops[|ops| - 1];
  }

  lemma {:induction false} RunFromPrefix(cfg: Config, r: Run, m: Run, prefix: seq<Op>, ops: seq<Op>)
    requires cfg.modules > 0 && RunFrom(cfg, r, prefix) == m
    ensures RunFrom(cfg, r, prefix + ops) == RunFrom(cfg, m, ops)
    decreases |ops|
  {
    if ops == [] {
      assert prefix + ops == prefix;
    } else {
      var before, op := LastOp(prefix, ops);
      RunFromPrefix(cfg, r, m, prefix, before);
      PrefixStep(cfg, r, m, prefix + before, before, op);
    }
  }

  /** Take any calls, and any calls `ops` after them in which no entry is inserted for an image
      that is not newer than those popped in `ops` before it: what is popped in `ops` has
      strictly increasing ids. */
  lemma PopsIncrease(cfg: Config, prefix: seq<Op>, ops: seq<Op>)
    requires cfg.modules > 0 && NoneLate(cfg, RunOf(cfg, prefix).(popped := []), ops)
    ensures var popped := RunFrom(cfg, RunOf(cfg, prefix).(popped := []), ops).popped;
            && RunOf(cfg, prefix + ops).popped == RunOf(cfg, prefix).popped + popped
            && Increasing(popped)
  {
    RunKeeps(cfg, prefix);
    RunFromPrefix(cfg, Run([], map[], map[], [], 0, 0), RunOf(cfg, prefix), prefix, ops);
    ForgetsPopped(cfg, RunOf(cfg, prefix), ops);
    PopsFromIncrease(cfg, RunOf(cfg, prefix).(popped := []), ops);
  }

  // ---- The class ----

  function SetAll(n: nat): set<nat> {
    if n == 0 then {} else SetAll(n - 1) + {n - 1}
  }

  lemma {:induction false} SetAllIs(n: nat, m: nat)
    ensures m in SetAll(n) <==> m < n
  {
    if n > 0 { SetAllIs(n - 1, m); }
  }

  class Synchronizer {
    const cfg: Config
    var cache: Cache

    constructor (modules: nat, capacity: nat, mask: set<nat>)
      requires modules > 0
      ensures cfg == Config(modules, capacity, if mask == {} then SetAll(modules) else mask) && cache == []
    {
      cfg := Config(modules, capacity, if mask == {} then SetAll(modules) else mask);
      cache := [];
    }

    /** The search of the ordered map. */
    method FindPlace(id: nat) returns (k: nat)
      ensures k == Place(cache, id)
    {
      k := 0;
      while k < |cache| && cache[k].id < id
        invariant k <= |cache| && Place(cache, id) == k + Place(cache[k..], id)
      {
        assert cache[k..][1..] == cache[k + 1..];
        k := k + 1;
      }
    }

    method PushNewImageToQueue(f: Frame) returns (corrupted: nat)
      requires cfg.modules > 0
      modifies this
      ensures (cache, corrupted) == Push(cfg, old(cache), f)
    {
      if |cache| > cfg.capacity {
        assert cache[1..] == RemoveAt(cache, 0);
        cache := cache[1..];
      }
      var k := FindPlace(f.id);
      cache := cache[..k] + [Entry(f.id, cfg.expected - {f.mod % cfg.modules}, f)] + cache[k..];
      corrupted := if |cache| > cfg.capacity then 1 else 0;
    }

    method ProcessImageMetadata(f: Frame) returns (corrupted: nat)
      requires cfg.modules > 0
      modifies this
      ensures (cache, corrupted) == Process(cfg, old(cache), f)
    {
      var k := FindPlace(f.id);
      var m := f.mod % cfg.modules;
      if k == |cache| || cache[k].id != f.id {
        corrupted := PushNewImageToQueue(f);
      } else if m !in cache[k].mask {
        cache := cache[..k] + cache[k + 1..];
        corrupted := 1;
      } else {
        cache := cache[k := cache[k].(mask := cache[k].mask - {m})];
        corrupted := 0;
      }
    }

    method PopNextFullImage() returns (image: Option<Frame>)
      modifies this
      ensures (cache, image) == PopNext(old(cache))
    {
      if cache == [] { return None; }
      if cache[0].mask == {} {
        image := Some(cache[0].meta);
        cache := cache[1..];
        return;
      }
      return None;
    }
  }
}
