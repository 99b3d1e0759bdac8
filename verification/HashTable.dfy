/** The growing open-addressing hash table (lib/hash.c).

  A slot is empty, deleted, or live.  Probing starts at the hash code, runs up to the wall, and then
  once more from the bottom; it stops at the first slot that is not live or that holds the key.  The hash
  function is arbitrary.
 */
module HashTable {
  import opened FixedPoint
  import opened Types

  datatype Slot<K, V> = Empty | Deleted | Live(key: K, value: V)

  /** hash_sizelog, the array without its wall, and STAT_USED. */
  datatype Table<K, V> = Table(log: nat, slots: seq<Slot<K, V>>, used: int)

  /** hash_code: the slot where the search for a key starts, for a table of 2^sizelog slots. */
  type Code<!K> = (nat, K) -> int

  // ----- probing

  predicate Stops<K(==), V>(s: Slot<K, V>, k: K) {
    !s.Live? || s.key == k
  }

  /** One pass: the first slot from `i` on where the search stops, or the wall. */
  function Pass<K(==), V>(slots: seq<Slot<K, V>>, i: nat, k: K): (j: nat)
    requires i <= |slots|
    ensures i <= j <= |slots|
    ensures forall l :: i <= l < j ==> !Stops(slots[l], k)
    ensures j < |slots| ==> Stops(slots[j], k)
    decreases |slots| - i
  {
    if i == |slots| || Stops(slots[i], k) then i else Pass(slots, i + 1, k)
  }

  /** hash_ask: one pass, and a second one from the bottom if the first fell off. */
  function Ask<K(==), V>(slots: seq<Slot<K, V>>, h: nat, k: K): (j: nat)
    requires h < |slots|
    ensures j <= |slots|
  {
    var j := Pass(slots, h, k);
    if j == |slots| then Pass(slots, 0, k) else j
  }

  function Lookup<K(==), V>(slots: seq<Slot<K, V>>, h: nat, k: K): Option<V>
    requires h < |slots|
  {
    var j := Ask(slots, h, k);
    if j < |slots| && slots[j].Live? then Some(slots[j].value) else None
  }

  /** The slots a search for something at `i`, started at `h`, visits before `i`. */
  predicate Before(h: int, i: int, j: int) {
    if h <= i then h <= j < i else j >= h || j < i
  }

  predicate FreePath<K(==), V>(slots: seq<Slot<K, V>>, h: nat, k: K, i: nat)
    requires h < |slots| && i < |slots|
  {
    forall j :: 0 <= j < |slots| && Before(h, i, j) ==> !Stops(slots[j], k)
  }

  predicate HasRoom<K, V>(slots: seq<Slot<K, V>>) {
    exists i :: 0 <= i < |slots| && !slots[i].Live?
  }

  /** A table that is not full of live slots stops every search before the wall, on the second pass at the
      latest, at the first place in probe order where it can. */
  lemma AskStops<K, V>(slots: seq<Slot<K, V>>, h: nat, k: K)
    requires h < |slots| && HasRoom(slots)
    ensures Ask(slots, h, k) < |slots|
    ensures Stops(slots[Ask(slots, h, k)], k) && FreePath(slots, h, k, Ask(slots, h, k))
  {
    var i :| 0 <= i < |slots| && !slots[i].Live?;
    assert Stops(slots[i], k);
  }

  lemma AskIsFirst<K, V>(slots: seq<Slot<K, V>>, h: nat, k: K, i: nat)
    requires h < |slots| && i < |slots|
    requires Stops(slots[i], k) && FreePath(slots, h, k, i)
    ensures Ask(slots, h, k) == i
  {
    var j := Pass(slots, h, k);
    var l := Pass(slots, 0, k);
    assert j < |slots| ==> (Before(h, i, j) <==> if h <= i then j < i else true);
    assert l < i ==> Before(h, i, l) || h <= i;
  }

  // ----- how many slots are live

  function LiveCount<K, V>(slots: seq<Slot<K, V>>): (n: int)
    ensures 0 <= n <= |slots|
  {
    if slots == [] then 0
    else LiveCount(slots[..|slots| - 1]) + if slots[|slots| - 1].Live? then 1 else 0
  }

  lemma {:induction false} LiveCountUpdate<K, V>(slots: seq<Slot<K, V>>, i: nat, s: Slot<K, V>)
    requires i < |slots|
    ensures LiveCount(slots[i := s])
         == LiveCount(slots) - (if slots[i].Live? then 1 else 0) + if s.Live? then 1 else 0
  {
    var n := |slots| - 1;
    if i < n {
      LiveCountUpdate(slots[..n], i, s);
      assert slots[i := s][..n] == slots[..n][i := s];
    } else {
      assert slots[i := s][..n] == slots[..n];
    }
  }

  lemma {:induction false} RoomWhenNotAllLive<K, V>(slots: seq<Slot<K, V>>)
    requires LiveCount(slots) < |slots|
    ensures HasRoom(slots)
  {
    var n := |slots| - 1;
    if slots[n].Live? {
      RoomWhenNotAllLive(slots[..n]);
      var i :| 0 <= i < n && !slots[..n][i].Live?;
      assert !slots[i].Live?;
    }
  }

  lemma {:induction false} NoneLive<K, V>(n: nat)
    ensures LiveCount(seq(n, _ => Slot<K, V>.Empty)) == 0
  {
    if n > 0 {
      NoneLive<K, V>(n - 1);
      assert seq(n, _ => Slot<K, V>.Empty)[..n - 1] == seq(n - 1, _ => Slot<K, V>.Empty);
    }
  }

  // ----- the operations as functions of the table

  /** The slot count is 2^log, STAT_USED counts the live slots, and they fill little more than half. */
  predicate Counted<K, V>(t: Table<K, V>) {
    && t.log >= 2 && |t.slots| == Pow2(t.log) >= 4
    && t.used == LiveCount(t.slots) <= Full(t) + 1
  }

  /** hash_full. */
  function Full<K, V>(t: Table<K, V>): int {
    |t.slots| / 2
  }

  function Home<K, V>(code: Code<K>, t: Table<K, V>, k: K): (h: nat)
    requires |t.slots| > 0
    ensures h < |t.slots|
  {
    code(t.log, k) % |t.slots|
  }

  /** Half full leaves room. */
  lemma CountedHasRoom<K, V>(t: Table<K, V>)
    requires Counted(t)
    ensures HasRoom(t.slots)
  {
    RoomWhenNotAllLive(t.slots);
  }

  function AskTable<K(==), V>(code: Code<K>, t: Table<K, V>, k: K): (j: nat)
    requires Counted(t)
    ensures j < |t.slots|
  {
    CountedHasRoom(t);
    AskStops(t.slots, Home(code, t, k), k);
    Ask(t.slots, Home(code, t, k), k)
  }

  /** Writes a symbol into the slot where it ought to live: hash_jam without its test for growth. */
  function Place<K(==), V>(code: Code<K>, t: Table<K, V>, k: K, v: V): Table<K, V>
    requires Counted(t)
  {
    var j := AskTable(code, t, k);
    Table(t.log, t.slots[j := Live(k, v)], if t.slots[j].Live? then t.used else t.used + 1)
  }

  /** Jams the live ones of some old slots, from the first to the last. */
  function Rehash<K(==), V>(code: Code<K>, olds: seq<Slot<K, V>>, into: Table<K, V>): (t: Table<K, V>)
    requires Counted(into) && into.used + LiveCount(olds) <= Full(into) + 1
    ensures Counted(t) && t.log == into.log && t.used <= into.used + LiveCount(olds)
  {
    if olds == [] then into
    else
      var n := |olds| - 1;
      var t := Rehash(code, olds[..n], into);
      if olds[n].Live? then
        PlaceIsCounted(code, t, olds[n].key, olds[n].value);
        Place(code, t, olds[n].key, olds[n].value)
      else t
  }

  lemma PlaceIsCounted<K, V>(code: Code<K>, t: Table<K, V>, k: K, v: V)
    requires Counted(t) && t.used <= Full(t)
    ensures Counted(Place(code, t, k, v)) && Place(code, t, k, v).used <= t.used + 1
  {
    LiveCountUpdate(t.slots, AskTable(code, t, k), Live(k, v));
  }

  function Vacant<K, V>(log: nat): (t: Table<K, V>)
    requires log >= 2
    ensures Counted(t) && t.used == 0 && t.log == log
  {
    NoneLive<K, V>(Pow2(log));
    Pow2Monotonic(2, log);
    Pow2Values();
    Table(log, seq(Pow2(log), _ => Empty), 0)
  }

  /** hash_grow: twice the slots, and every symbol rehashed. */
  function Grow<K(==), V>(code: Code<K>, t: Table<K, V>): (r: Table<K, V>)
    requires Counted(t)
    ensures Counted(r) && r.used <= Full(r) && r.used <= t.used
  {
    Rehash(code, t.slots, Vacant(t.log + 1))
  }

  function Spacious<K(==), V>(code: Code<K>, t: Table<K, V>): (r: Table<K, V>)
    requires Counted(t)
    ensures Counted(r) && r.used <= Full(r)
  {
    if t.used > Full(t) then Grow(code, t) else t
  }

  datatype Op<K, V> = Insert(key: K, value: V) | Jam(key: K, value: V) | Replace(key: K, value: V) | Delete(key: K)

  predicate Found<K(==), V>(code: Code<K>, t: Table<K, V>, k: K)
    requires Counted(t)
  {
    t.slots[AskTable(code, t, k)].Live?
  }

  /** hash_find. */
  function Find<K(==), V>(code: Code<K>, t: Table<K, V>, k: K): Option<V>
    requires Counted(t)
  {
    Lookup(t.slots, Home(code, t, k), k)
  }

  /** hash_replace on a symbol that is there, hash_delete on a symbol that is there. */
  function Put<K, V>(t: Table<K, V>, j: nat, s: Slot<K, V>): Table<K, V>
    requires j < |t.slots|
  {
    Table(t.log, t.slots[j := s], if s.Live? then t.used else t.used - 1)
  }

  function Step<K(==), V>(code: Code<K>, t: Table<K, V>, op: Op<K, V>): (r: Table<K, V>)
    requires Counted(t)
    ensures Counted(r)
  {
    match op
    case Insert(k, v) =>
      var s := Spacious(code, t);
      PlaceIsCounted(code, s, k, v);
      if Found(code, s, k) then s else Place(code, s, k, v)
    case Jam(k, v) =>
      var s := Spacious(code, t);
      PlaceIsCounted(code, s, k, v);
      Place(code, s, k, v)
    case Replace(k, v) =>
      var j := AskTable(code, t, k);
      LiveCountUpdate(t.slots, j, Live(k, v));
      if t.slots[j].Live? then Put(t, j, Live(k, v)) else t
    case Delete(k) =>
      var j := AskTable(code, t, k);
      LiveCountUpdate(t.slots, j, Deleted);
      if t.slots[j].Live? then Put(t, j, Deleted) else t
  }

  function Steps<K(==), V>(code: Code<K>, t: Table<K, V>, ops: seq<Op<K, V>>): (r: Table<K, V>)
    requires Counted(t)
    ensures Counted(r)
  {
    if ops == [] then t
    else Step(code, Steps(code, t, ops[..|ops| - 1]), ops[|ops| - 1])
  }

  // ----- what any run keeps, deletions included

  /** No search for a symbol in the table meets an empty slot before it. */
  predicate NoGaps<K, V>(code: Code<K>, t: Table<K, V>)
    requires |t.slots| > 0
  {
    forall i, j :: 0 <= i < |t.slots| && 0 <= j < |t.slots| && t.slots[i].Live? && Before(Home(code, t, t.slots[i].key), i, j)
      ==> !t.slots[j].Empty?
  }

  lemma PlaceLeavesNoGaps<K, V>(code: Code<K>, t: Table<K, V>, k: K, v: V)
    requires Counted(t) && NoGaps(code, t)
    ensures NoGaps(code, Place(code, t, k, v))
  {
    AskStops(t.slots, Home(code, t, k), k) by { CountedHasRoom(t); }
  }

  lemma {:induction false} RehashLeavesNoGaps<K, V>(code: Code<K>, olds: seq<Slot<K, V>>, into: Table<K, V>)
    requires Counted(into) && into.used + LiveCount(olds) <= Full(into) + 1 && NoGaps(code, into)
    ensures NoGaps(code, Rehash(code, olds, into))
  {
    if olds != [] {
      var n := |olds| - 1;
      RehashLeavesNoGaps(code, olds[..n], into);
      if olds[n].Live? {
        PlaceLeavesNoGaps(code, Rehash(code, olds[..n], into), olds[n].key, olds[n].value);
      }
    }
  }

  lemma StepLeavesNoGaps<K, V>(code: Code<K>, t: Table<K, V>, op: Op<K, V>)
    requires Counted(t) && NoGaps(code, t)
    ensures NoGaps(code, Step(code, t, op))
  {
    match op
    case Insert(k, v) =>
      RehashLeavesNoGaps(code, t.slots, Vacant(t.log + 1));
      PlaceLeavesNoGaps(code, Spacious(code, t), k, v);
    case Jam(k, v) =>
      RehashLeavesNoGaps(code, t.slots, Vacant(t.log + 1));
      PlaceLeavesNoGaps(code, Spacious(code, t), k, v);
    case Replace(k, v) =>
      AskStops(t.slots, Home(code, t, k), k) by { CountedHasRoom(t); }
    case Delete(k) =>
  }

  /** Whatever is inserted, jammed, replaced and deleted: STAT_USED counts the live slots, the table is at
      most one symbol over half full, so every probe stops before the wall, and no probe path has a gap. */
  lemma {:induction false} RunKeepsCounts<K, V>(code: Code<K>, t: Table<K, V>, ops: seq<Op<K, V>>)
    requires Counted(t) && NoGaps(code, t)
    ensures var r := Steps(code, t, ops);
            && r.used == LiveCount(r.slots) <= |r.slots| / 2 + 1 < |r.slots|
            && NoGaps(code, r)
            && forall k :: AskTable(code, r, k) < |r.slots|
  {
    if ops != [] {
      RunKeepsCounts(code, t, ops[..|ops| - 1]);
      StepLeavesNoGaps(code, Steps(code, t, ops[..|ops| - 1]), ops[|ops| - 1]);
    }
  }

  /** Exactly when hash_find finds a key: it is in some slot with no deleted slot before it on the probe
      path. */
  lemma FoundIffNoDeletedBefore<K, V>(code: Code<K>, t: Table<K, V>, k: K)
    requires Counted(t) && NoGaps(code, t)
    ensures Find(code, t, k).Some? <==>
            exists i :: 0 <= i < |t.slots| && t.slots[i].Live? && t.slots[i].key == k
                        && forall j :: 0 <= j < |t.slots| && Before(Home(code, t, k), i, j) ==> !t.slots[j].Deleted?
  {
    var h := Home(code, t, k);
    var j := AskTable(code, t, k);
    AskStops(t.slots, h, k) by { CountedHasRoom(t); }
    forall i | 0 <= i < |t.slots| && t.slots[i].Live? && t.slots[i].key == k
               && (forall l :: 0 <= l < |t.slots| && Before(h, i, l) ==> !t.slots[l].Deleted?)
      ensures t.slots[j].Live?
    {
      assert Before(h, i, j) || i == j || Before(h, j, i);
    }
  }

  // ----- the table as a map

  /** Every symbol is reached by its own search: all slots before it are live and hold other symbols. */
  predicate Settled<K(==), V>(code: Code<K>, t: Table<K, V>)
    requires |t.slots| > 0
  {
    forall i :: 0 <= i < |t.slots| && t.slots[i].Live? ==> FreePath(t.slots, Home(code, t, t.slots[i].key), t.slots[i].key, i)
  }

  predicate Holds<K(==), V(==)>(t: Table<K, V>, k: K, v: V) {
    exists i :: 0 <= i < |t.slots| && t.slots[i] == Live(k, v)
  }

  ghost predicate Represents<K(!new), V(!new)>(code: Code<K>, t: Table<K, V>, m: map<K, V>) {
    && Counted(t) && Settled(code, t)
    && Within(t, m) && Covers(t, m)
  }

  ghost predicate Within<K, V>(t: Table<K, V>, m: map<K, V>) {
    forall i :: 0 <= i < |t.slots| && t.slots[i].Live? ==> t.slots[i].key in m && m[t.slots[i].key] == t.slots[i].value
  }

  ghost predicate Covers<K(!new), V(!new)>(t: Table<K, V>, m: map<K, V>) {
    forall k :: k in m ==> Holds(t, k, m[k])
  }

  /** hash_find agrees with the map. */
  lemma FindAgrees<K(!new), V(!new)>(code: Code<K>, t: Table<K, V>, m: map<K, V>, k: K)
    requires Represents(code, t, m)
    ensures Find(code, t, k) == if k in m then Some(m[k]) else None
    ensures Found(code, t, k) <==> k in m
  {
    AskStops(t.slots, Home(code, t, k), k) by { CountedHasRoom(t); }
    if k in m {
      assert Holds(t, k, m[k]);
      var i :| 0 <= i < |t.slots| && t.slots[i] == Live(k, m[k]);
      AskIsFirst(t.slots, Home(code, t, k), k, i);
    }
  }

  /** A settled table keeps every symbol once. */
  lemma SettledIsUnique<K, V>(code: Code<K>, t: Table<K, V>, i: nat)
    requires Counted(t) && Settled(code, t) && i < |t.slots| && t.slots[i].Live?
    ensures AskTable(code, t, t.slots[i].key) == i
  {
    AskIsFirst(t.slots, Home(code, t, t.slots[i].key), t.slots[i].key, i);
  }

  lemma PlaceIsSettled<K, V>(code: Code<K>, t: Table<K, V>, k: K, v: V)
    requires Counted(t) && Settled(code, t)
    ensures Settled(code, Place(code, t, k, v))
  {
    var j := AskTable(code, t, k);
    var r := Place(code, t, k, v);
    AskStops(t.slots, Home(code, t, k), k) by { CountedHasRoom(t); }
    forall i | 0 <= i < |t.slots| && i != j && t.slots[i].Live?
      ensures FreePath(r.slots, Home(code, t, t.slots[i].key), t.slots[i].key, i)
    {
      SettledIsUnique(code, t, i);
    }
  }

  /** hash_jam without growth is map update. */
  lemma PlaceRefines<K(!new), V(!new)>(code: Code<K>, t: Table<K, V>, m: map<K, V>, k: K, v: V)
    requires Represents(code, t, m) && t.used <= Full(t)
    ensures Represents(code, Place(code, t, k, v), m[k := v])
  {
    PlaceIsCounted(code, t, k, v);
    PlaceIsSettled(code, t, k, v);
    PlaceContents(code, t, m, k, v);
  }

  lemma PlaceContents<K(!new), V(!new)>(code: Code<K>, t: Table<K, V>, m: map<K, V>, k: K, v: V)
    requires Represents(code, t, m)
    ensures Within(Place(code, t, k, v), m[k := v]) && Covers(Place(code, t, k, v), m[k := v])
  {
    var j := AskTable(code, t, k);
    var r := Place(code, t, k, v);
    var n := m[k := v];
    AskStops(t.slots, Home(code, t, k), k) by { CountedHasRoom(t); }
    forall i | 0 <= i < |r.slots| && r.slots[i].Live?
      ensures r.slots[i].key in n && n[r.slots[i].key] == r.slots[i].value
    {
      if i != j { SettledIsUnique(code, t, i); }
    }
    forall l | l in n ensures Holds(r, l, n[l]) {
      if l == k {
        assert r.slots[j] == Live(k, v);
      } else {
        assert Holds(t, l, m[l]);
        var i :| 0 <= i < |t.slots| && t.slots[i] == Live(l, m[l]);
        assert r.slots[i] == Live(l, m[l]);
      }
    }
  }

  /** What jamming the live ones of some slots does to a map. */
  function Jammed<K, V>(olds: seq<Slot<K, V>>, m: map<K, V>): map<K, V> {
    if olds == [] then m
    else
      var n := |olds| - 1;
      var before := Jammed(olds[..n], m);
      if olds[n].Live? then before[olds[n].key := olds[n].value] else before
  }

  lemma {:induction false} RehashRefines<K(!new), V(!new)>(code: Code<K>, olds: seq<Slot<K, V>>, into: Table<K, V>, m: map<K, V>)
    requires Represents(code, into, m) && into.used + LiveCount(olds) <= Full(into) + 1
    ensures Represents(code, Rehash(code, olds, into), Jammed(olds, m))
  {
    if olds != [] {
      var n := |olds| - 1;
      RehashRefines(code, olds[..n], into, m);
      if olds[n].Live? {
        PlaceRefines(code, Rehash(code, olds[..n], into), Jammed(olds[..n], m), olds[n].key, olds[n].value);
      }
    }
  }

  /** Jamming the live slots of a table that represents `m`, from none on, gives `m`. */
  lemma {:induction false} JammedPrefix<K(!new), V(!new)>(code: Code<K>, t: Table<K, V>, m: map<K, V>, n: nat)
    requires Represents(code, t, m) && n <= |t.slots|
    ensures forall k :: k in Jammed(t.slots[..n], map[]) ==> k in m && Jammed(t.slots[..n], map[])[k] == m[k]
    ensures forall i :: 0 <= i < n && t.slots[i].Live? ==> t.slots[i].key in Jammed(t.slots[..n], map[])
  {
    hide Counted, Settled, Covers;
    if n > 0 {
      JammedPrefix(code, t, m, n - 1);
      assert t.slots[..n][..n - 1] == t.slots[..n - 1];
      assert t.slots[..n][n - 1] == t.slots[n - 1];
    }
  }

  /** hash_grow keeps the map. */
  lemma GrowRefines<K(!new), V(!new)>(code: Code<K>, t: Table<K, V>, m: map<K, V>)
    requires Represents(code, t, m)
    ensures Represents(code, Grow(code, t), m)
  {
    var vacant := Vacant<K, V>(t.log + 1);
    RehashRefines(code, t.slots, vacant, map[]);
    JammedPrefix(code, t, m, |t.slots|);
    assert t.slots[..|t.slots|] == t.slots;
    forall k | k in m ensures k in Jammed(t.slots, map[]) {
      assert Holds(t, k, m[k]);
    }
    assert Jammed(t.slots, map[]) == m;
  }

  /** The map operation each call stands for. */
  function Model<K, V>(m: map<K, V>, op: Op<K, V>): map<K, V> {
    match op
    case Insert(k, v) => if k in m then m else m[k := v]
    case Jam(k, v) => m[k := v]
    case Replace(k, v) => if k in m then m[k := v] else m
    case Delete(k) => m - {k}
  }

  function Models<K, V>(m: map<K, V>, ops: seq<Op<K, V>>): map<K, V> {
    if ops == [] then m else Model(Models(m, ops[..|ops| - 1]), ops[|ops| - 1])
  }

  /** No other symbol's search passes through slot `j`. */
  predicate Unpassed<K, V>(code: Code<K>, t: Table<K, V>, j: nat)
    requires |t.slots| > 0
  {
    forall i :: 0 <= i < |t.slots| && i != j && t.slots[i].Live? ==> !Before(Home(code, t, t.slots[i].key), i, j)
  }

  /** A deletion that empties no other symbol's path; every other call. */
  predicate Harmless<K(==), V>(code: Code<K>, t: Table<K, V>, op: Op<K, V>)
    requires Counted(t)
  {
    op.Delete? && Found(code, t, op.key) ==> Unpassed(code, t, AskTable(code, t, op.key))
  }

  lemma DeleteRefinesIffUnpassed<K(!new), V(!new)>(code: Code<K>, t: Table<K, V>, m: map<K, V>, k: K)
    requires Represents(code, t, m)
    ensures Represents(code, Step(code, t, Delete(k)), Model(m, Op<K, V>.Delete(k))) <==> Harmless(code, t, Op<K, V>.Delete(k))
  {
    FindAgrees(code, t, m, k);
    var j := AskTable(code, t, k);
    var r := Step(code, t, Delete(k));
    AskStops(t.slots, Home(code, t, k), k) by { CountedHasRoom(t); }
    if k in m {
      if Unpassed(code, t, j) {
        DeleteKeepsOthers(code, t, m, k);
      } else {
        var i :| 0 <= i < |t.slots| && i != j && t.slots[i].Live? && Before(Home(code, t, t.slots[i].key), i, j);
        assert Stops(r.slots[j], t.slots[i].key) && r.slots[i] == t.slots[i];
        assert !FreePath(r.slots, Home(code, r, r.slots[i].key), r.slots[i].key, i);
      }
    } else {
      assert m - {k} == m;
    }
  }

  /** hash_find is a lookup in `m`, whatever symbol is looked for. */
  ghost predicate FindsAll<K(!new), V(!new)>(code: Code<K>, t: Table<K, V>, m: map<K, V>)
    requires Counted(t)
  {
    forall l: K :: Find(code, t, l) == if l in m then Some(m[l]) else None
  }

  /** After hash_delete, hash_find still agrees with the map for every symbol exactly when no other symbol's
      search passes through the deleted slot. */
  lemma LookupsAfterDeleteIff<K(!new), V(!new)>(code: Code<K>, t: Table<K, V>, m: map<K, V>, k: K)
    requires Represents(code, t, m)
    ensures Counted(Step(code, t, Delete(k)))
    ensures FindsAll(code, Step(code, t, Delete(k)), m - {k}) <==> Harmless(code, t, Op<K, V>.Delete(k))
  {
    var r := Step(code, t, Delete(k));
    if Harmless(code, t, Op<K, V>.Delete(k)) {
      DeleteRefinesIffUnpassed(code, t, m, k);
      forall l: K ensures Find(code, r, l) == if l in m - {k} then Some((m - {k})[l]) else None {
        FindAgrees(code, r, m - {k}, l);
      }
    } else {
      var l := PassedSymbolIsHidden(code, t, m, k);
      assert Find(code, r, l) == None && l in m - {k};
    }
  }

  lemma PassedSymbolIsHidden<K(!new), V(!new)>(code: Code<K>, t: Table<K, V>, m: map<K, V>, k: K) returns (l: K)
    requires Represents(code, t, m) && !Harmless(code, t, Op<K, V>.Delete(k))
    ensures Counted(Step(code, t, Delete(k)))
    ensures l in m - {k} && Find(code, Step(code, t, Delete(k)), l) == None
  {
    FindAgrees(code, t, m, k);
    var j := AskTable(code, t, k);
    var r := Step(code, t, Delete(k));
    AskStops(t.slots, Home(code, t, k), k) by { CountedHasRoom(t); }
    var i :| 0 <= i < |t.slots| && i != j && t.slots[i].Live? && Before(Home(code, t, t.slots[i].key), i, j);
    l := t.slots[i].key;
    SettledIsUnique(code, t, i);
    HiddenBehind(t.slots, Home(code, t, l), i, j);
  }

  /** A search that passes through a slot stops there once it is deleted. */
  lemma HiddenBehind<K, V>(slots: seq<Slot<K, V>>, h: nat, i: nat, j: nat)
    requires h < |slots| && i < |slots| && j < |slots| && slots[i].Live?
    requires FreePath(slots, h, slots[i].key, i) && Before(h, i, j)
    ensures Lookup(slots[j := Slot<K, V>.Deleted], h, slots[i].key) == None
  {
    var r := slots[j := Slot<K, V>.Deleted];
    PathToPassed(slots, h, slots[i].key, i, j, r);
    hide FreePath;
    AskIsFirst(r, h, slots[i].key, j);
  }

  /** Emptying a slot on the path to `i` leaves the path up to it free. */
  lemma PathToPassed<K, V>(slots: seq<Slot<K, V>>, h: nat, l: K, i: nat, j: nat, r: seq<Slot<K, V>>)
    requires h < |slots| && i < |slots| && j < |slots| && r == slots[j := Slot<K, V>.Deleted]
    requires FreePath(slots, h, l, i) && Before(h, i, j)
    ensures FreePath(r, h, l, j)
  {
    forall n | 0 <= n < |r| && Before(h, j, n) ensures !Stops(r[n], l) {
      assert Before(h, i, n) && n != j;
    }
  }

  lemma DeleteKeepsOthers<K(!new), V(!new)>(code: Code<K>, t: Table<K, V>, m: map<K, V>, k: K)
    requires Represents(code, t, m) && Found(code, t, k) && Unpassed(code, t, AskTable(code, t, k))
    ensures Represents(code, Step(code, t, Delete(k)), m - {k})
  {
    FindAgrees(code, t, m, k);
    var j := AskTable(code, t, k);
    var r := Step(code, t, Delete(k));
    AskStops(t.slots, Home(code, t, k), k) by { CountedHasRoom(t); }
    forall i | 0 <= i < |r.slots| && r.slots[i].Live?
      ensures r.slots[i].key in m - {k} && (m - {k})[r.slots[i].key] == r.slots[i].value
      ensures FreePath(r.slots, Home(code, r, r.slots[i].key), r.slots[i].key, i)
    {
      SettledIsUnique(code, t, i);
    }
    var n := m - {k};
    forall l | l in n ensures Holds(r, l, n[l]) {
      assert Holds(t, l, m[l]);
      var i :| 0 <= i < |t.slots| && t.slots[i] == Live(l, m[l]);
      assert r.slots[i] == Live(l, m[l]);
    }
  }

  lemma ReplaceRefines<K(!new), V(!new)>(code: Code<K>, t: Table<K, V>, m: map<K, V>, k: K, v: V)
    requires Represents(code, t, m)
    ensures Represents(code, Step(code, t, Replace(k, v)), Model(m, Op<K, V>.Replace(k, v)))
  {
    FindAgrees(code, t, m, k);
    var j := AskTable(code, t, k);
    AskStops(t.slots, Home(code, t, k), k) by { CountedHasRoom(t); }
    if k in m {
      var r := Step(code, t, Replace(k, v));
      PlaceIsSettled(code, t, k, v);
      assert r == Place(code, t, k, v);
      PlaceContents(code, t, m, k, v);
    }
  }

  /** Each call is its map operation. */
  lemma StepRefines<K(!new), V(!new)>(code: Code<K>, t: Table<K, V>, m: map<K, V>, op: Op<K, V>)
    requires Represents(code, t, m) && Harmless(code, t, op)
    ensures Represents(code, Step(code, t, op), Model(m, op))
  {
    if op.Insert? || op.Jam? {
      var s := Spacious(code, t);
      GrowRefines(code, t, m);
      FindAgrees(code, s, m, op.key);
      PlaceRefines(code, s, m, op.key, op.value);
    } else if op.Replace? {
      ReplaceRefines(code, t, m, op.key, op.value);
    } else {
      DeleteRefinesIffUnpassed(code, t, m, op.key);
    }
  }

  predicate AllHarmless<K(==), V>(code: Code<K>, t: Table<K, V>, ops: seq<Op<K, V>>)
    requires Counted(t)
  {
    ops == [] ||
    (AllHarmless(code, t, ops[..|ops| - 1]) && Harmless(code, Steps(code, t, ops[..|ops| - 1]), ops[|ops| - 1]))
  }

  /** Over whole runs, through wrap-around and every growth, the table is the map, as long as no deletion
      breaks a probe path. */
  lemma {:induction false} RunRefines<K(!new), V(!new)>(code: Code<K>, t: Table<K, V>, m: map<K, V>, ops: seq<Op<K, V>>)
    requires Represents(code, t, m) && AllHarmless(code, t, ops)
    ensures Represents(code, Steps(code, t, ops), Models(m, ops))
  {
    if ops != [] {
      var n := |ops| - 1;
      RunRefines(code, t, m, ops[..n]);
      StepRefines(code, Steps(code, t, ops[..n]), Models(m, ops[..n]), ops[n]);
    }
  }

  lemma {:induction false} DeleteFreeIsHarmless<K, V>(code: Code<K>, t: Table<K, V>, ops: seq<Op<K, V>>)
    requires Counted(t) && forall i :: 0 <= i < |ops| ==> !ops[i].Delete?
    ensures AllHarmless(code, t, ops)
  {
    if ops != [] {
      DeleteFreeIsHarmless(code, t, ops[..|ops| - 1]);
    }
  }

  /** From hash_new on, after any calls of hash_insert, hash_jam and hash_replace, hash_find is map lookup. */
  lemma DeleteFreeRunIsMap<K(!new), V(!new)>(code: Code<K>, ops: seq<Op<K, V>>, k: K)
    requires forall i :: 0 <= i < |ops| ==> !ops[i].Delete?
    ensures var m := Models(map[], ops);
            Find(code, Steps(code, Vacant<K, V>(11), ops), k) == if k in m then Some(m[k]) else None
  {
    VacantIsEmpty<K, V>(11);
    assert Represents(code, Vacant<K, V>(11), map[]);
    DeleteFreeIsHarmless(code, Vacant<K, V>(11), ops);
    RunRefines(code, Vacant<K, V>(11), map[], ops);
    FindAgrees(code, Steps(code, Vacant<K, V>(11), ops), Models(map[], ops), k);
  }

  // ----- what a deletion can lose

  /** Any two symbols with the same code: deleting the first hides the second, and hash_insert then stores
      it a second time instead of reporting that it exists. */
  lemma DeletionHidesCollidingSymbol<K, V>(code: Code<K>, a: K, b: K, v: V, w: V)
    requires a != b && Home(code, Vacant<K, V>(11), a) == Home(code, Vacant<K, V>(11), b)
    ensures var t := Steps(code, Vacant<K, V>(11), [Insert(a, v), Insert(b, w), Delete(a)]);
            && Find(code, t, b) == None && Holds(t, b, w)
            && Step(code, t, Insert(b, w)).used == 2
  {
    hide Counted, Find, Pow2, Step, Steps, Vacant;
    var t0 := Vacant<K, V>(11);
    var t1 := Step(code, t0, Insert(a, v));
    var t2 := Step(code, t1, Insert(b, w));
    var t := Step(code, t2, Delete(a));
    ThreeSteps(code, t0, Insert(a, v), Insert(b, w), Delete(a));
    VacantIsEmpty<K, V>(11);
    var h := Home(code, t0, a);
    FirstInsert(code, t0, a, v);
    var j := SecondInsert(code, t1, h, a, v, b, w);
    DeleteFirst(code, t2, h, a, v);
    assert t.slots[j] == Live(b, w);
    FirstDeleted(code, t, b, w);
  }

  lemma ThreeSteps<K, V>(code: Code<K>, t: Table<K, V>, p: Op<K, V>, q: Op<K, V>, r: Op<K, V>)
    requires Counted(t)
    ensures Steps(code, t, [p, q, r]) == Step(code, Step(code, Step(code, t, p), q), r)
  {
    hide Counted;
    hide Step;
    var ops := [p, q, r];
    assert ops[..2] == [p, q] && [p, q][..1] == [p] && [p][..0] == [];
    assert Steps(code, t, []) == t;
    assert Steps(code, t, [p]) == Step(code, t, p);
    assert Steps(code, t, [p, q]) == Step(code, Step(code, t, p), q);
  }

  lemma VacantIsEmpty<K, V>(log: nat)
    requires log >= 2
    ensures var t := Vacant<K, V>(log);
            t.used == 0 && Full(t) >= 2 && |t.slots| == Pow2(log) && forall i :: 0 <= i < |t.slots| ==> t.slots[i].Empty?
  {
  }

  lemma FirstInsert<K, V>(code: Code<K>, t: Table<K, V>, a: K, v: V)
    requires Counted(t) && t.used <= Full(t) && t.slots[Home(code, t, a)].Empty?
    ensures var r := Step(code, t, Insert(a, v));
            r.log == t.log && r.used == t.used + 1 && r.slots == t.slots[Home(code, t, a) := Live(a, v)]
  {
    hide Ask, Counted, Full, Grow, Home, Put;
    AskIsFirst(t.slots, Home(code, t, a), a, Home(code, t, a));
  }

  lemma SecondInsert<K, V>(code: Code<K>, t: Table<K, V>, h: nat, a: K, v: V, b: K, w: V) returns (j: nat)
    requires Counted(t) && t.used <= Full(t) && a != b && h < |t.slots| && t.slots[h] == Live(a, v)
    requires forall i :: 0 <= i < |t.slots| && i != h ==> !t.slots[i].Live?
    ensures j < |t.slots| && j != h && Step(code, t, Insert(b, w)).slots == t.slots[j := Live(b, w)]
    ensures Step(code, t, Insert(b, w)).used == t.used + 1 && Step(code, t, Insert(b, w)).log == t.log
  {
    hide Ask, Before, Counted, Full, Grow, HasRoom, Home, Put;
    CountedHasRoom(t);
    AskStops(t.slots, Home(code, t, b), b);
    j := AskTable(code, t, b);
  }

  lemma DeleteFirst<K, V>(code: Code<K>, t: Table<K, V>, h: nat, a: K, v: V)
    requires Counted(t) && h < |t.slots| && t.slots[h] == Live(a, v) && Home(code, t, a) == h
    ensures var r := Step(code, t, Delete(a));
            r.log == t.log && r.used == t.used - 1 && r.slots == t.slots[h := Deleted]
  {
    hide Ask, Counted, Found, Home, Place, Spacious;
    AskIsFirst(t.slots, h, a, h);
  }

  lemma FirstDeleted<K, V>(code: Code<K>, t: Table<K, V>, b: K, w: V)
    requires Counted(t) && t.used <= Full(t) && t.slots[Home(code, t, b)].Deleted?
    ensures Find(code, t, b) == None && Step(code, t, Insert(b, w)).used == t.used + 1
  {
    hide Ask, Counted, Full, Grow, Home, Put;
    AskIsFirst(t.slots, Home(code, t, b), b, Home(code, t, b));
  }

  // ----- struct hash_control

  class HashControl<K(==), V> {
    var where: array<Slot<K, V>>   // hash_where; the last slot is the wall
    var sizelog: nat
    var full: int
    var used: int
    const code: Code<K>

    ghost predicate Valid()
      reads this, where
    {
      && where.Length == Pow2(sizelog) + 1 && where[where.Length - 1].Empty?
      && full == Pow2(sizelog) / 2
      && Counted(View())
    }

    ghost function View(): Table<K, V>
      requires where.Length > 0
      reads this, where
    {
      Table(sizelog, where[..where.Length - 1], used)
    }

    /** hash_new(). */
    constructor (code: Code<K>)
      ensures Valid() && fresh(where) && this.code == code
      ensures View() == Vacant(11)
    {
      Pow2Values();
      where := new Slot<K, V>[2049](_ => Empty);
      sizelog, full, used := 11, 1024, 0;
      this.code := code;
      new;
      ghost var vacant := Vacant<K, V>(11);
      assert where[..2048] == vacant.slots;
    }

    /** hash_ask(). */
    method HashAsk(k: K) returns (slot: nat, found: bool)
      requires Valid()
      ensures slot == AskTable(code, View(), k) && found == Found(code, View(), k)
      ensures slot < where.Length - 1 && where[slot] == View().slots[slot]
    {
      ghost var t := View();
      CountedHasRoom(t);
      var wall := where.Length - 1;
      slot := code(sizelog, k) % wall;
      ghost var h := slot;
      AskStops(t.slots, h, k);
      slot, found := Probe(slot, k);
      if slot == wall {
        slot, found := Probe(0, k);
      }
    }

    /** One of its two loops: up to a slot that is not live or holds the key, or to the wall. */
    method Probe(start: nat, k: K) returns (slot: nat, found: bool)
      requires Valid() && start < where.Length
      ensures slot == Pass(View().slots, start, k) && slot < where.Length
      ensures found <==> slot < where.Length - 1 && where[slot].Live? && where[slot].key == k
    {
      ghost var t := View();
      slot := start;
      found := false;
      while where[slot].Live? && !found
        invariant start <= slot < where.Length
        invariant Pass(t.slots, start, k) == Pass(t.slots, slot, k)
        invariant found ==> where[slot].Live? && where[slot].key == k
        decreases where.Length - slot, !found
      {
        if where[slot].key == k {
          found := true;
        } else {
          slot := slot + 1;
        }
      }
    }

    /** hash_find(). */
    method HashFind(k: K) returns (r: Option<V>)
      requires Valid()
      ensures r == Find(code, View(), k)
    {
      var slot, found := HashAsk(k);
      r := if found then Some(where[slot].value) else None;
    }

    /** hash_replace(). */
    method HashReplace(k: K, v: V) returns (r: Option<V>)
      requires Valid()
      modifies where
      ensures Valid() && View() == Step(code, old(View()), Replace(k, v))
      ensures r == Find(code, old(View()), k)
    {
      hide Ask, Counted, Home, Place, Pow2, Spacious;
      ghost var t := View();
      var slot, found := HashAsk(k);
      r := None;
      if found {
        FoundIsKey(code, t, k);
        r := Some(where[slot].value);
        where[slot] := Live(where[slot].key, v);
        assert View().slots == t.slots[slot := Live(k, v)];
      }
      assert View() == Step(code, t, Replace(k, v));
    }

    /** hash_delete(). */
    method HashDelete(k: K) returns (r: Option<V>)
      requires Valid()
      modifies this`used, where
      ensures Valid() && View() == Step(code, old(View()), Delete(k))
      ensures r == Find(code, old(View()), k)
    {
      hide Ask, Counted, Home, Place, Pow2, Spacious;
      ghost var t := View();
      var slot, found := HashAsk(k);
      r := None;
      if found {
        r := Some(where[slot].value);
        where[slot] := Deleted;
        used := used - 1;
        assert View().slots == t.slots[slot := Deleted];
      }
      assert View() == Step(code, t, Delete(k));
    }

    /** The end of hash_insert and hash_jam: a symbol goes into the slot where it ought to live. */
    method Write(k: K, v: V, slot: nat, found: bool)
      requires Valid() && used <= full
      requires slot == AskTable(code, View(), k) && found == Found(code, View(), k)
      modifies this`used, where
      ensures Valid() && View() == Place(code, old(View()), k, v)
    {
      hide AskTable, Counted, Pow2;
      ghost var t := View();
      PlaceIsCounted(code, t, k, v);
      if !found {
        used := used + 1;
      }
      where[slot] := Live(k, v);
      assert View().slots == t.slots[slot := Live(k, v)];
    }

    /** hash_insert(); true is the error "exists". */
    method HashInsert(k: K, v: V) returns (refused: bool)
      requires Valid()
      modifies this, where
      ensures Valid() && View() == Step(code, old(View()), Insert(k, v))
      ensures refused == Found(code, Spacious(code, old(View())), k)
      ensures where == old(where) || fresh(where)
    {
      hide AskTable, Counted, Found, Full, Grow, Place, Put, Valid, View;
      FullIsFull();
      ghost var t := View();
      if used > full {
        HashGrow();
      }
      FullIsFull();
      assert View() == Spacious(code, t);
      var slot, found := HashAsk(k);
      refused := found;
      if !found {
        Write(k, v, slot, found);
      }
    }

    /** hash_jam(). */
    method HashJam(k: K, v: V)
      requires Valid()
      modifies this, where
      ensures Valid() && View() == Step(code, old(View()), Jam(k, v))
      ensures where == old(where) || fresh(where)
      decreases if used > full then 2 else 0
    {
      hide AskTable, Counted, Found, Full, Grow, Place, Put, Valid, View;
      FullIsFull();
      ghost var t := View();
      if used > full {
        HashGrow();
      }
      FullIsFull();
      assert View() == Spacious(code, t);
      var slot, found := HashAsk(k);
      Write(k, v, slot, found);
    }

    lemma FullIsFull()
      requires Valid()
      ensures where.Length > 0 && full == Full(View()) && used == View().used && sizelog == View().log
      ensures Counted(View()) && sizelog >= 2 && |View().slots| == where.Length - 1
    {
    }

    /** hash_grow().  It calls hash_jam(), which had better not call it again: the new table is never so
        full that it would. */
    method HashGrow()
      requires Valid() && used > full
      modifies this
      ensures Valid() && View() == Grow(code, old(View()))
      ensures fresh(where)
      decreases 1, 1
    {
      hide Counted, Full, Place, Step, Vacant, Valid;
      FullIsFull();
      ghost var t := View();
      var oldWhere := where;
      var size := where.Length - 1;
      assert oldWhere[..size] == t.slots;
      Vacate(size);
      var n := 0;
      if size > 0 { NextOldSlot(code, t, 0); }
      assert View() == Rehash(code, t.slots[..0], Vacant(t.log + 1)) && LiveCount(t.slots[..0]) == 0;
      while n < size
        invariant 0 <= n <= size && Valid() && where.Length > 0 && fresh(where) && sizelog == t.log + 1
        invariant oldWhere[..size] == t.slots && oldWhere != where
        invariant LiveCount(t.slots[..n]) + Vacant<K, V>(t.log + 1).used <= Full(Vacant<K, V>(t.log + 1)) + 1
        invariant used <= LiveCount(t.slots[..n])
        invariant View() == Rehash(code, t.slots[..n], Vacant(t.log + 1))
      {
        assert oldWhere[n] == t.slots[n];
        RehashSlot(oldWhere[n], t, n);
        n := n + 1;
      }
      assert t.slots[..size] == t.slots;
    }

    /** One turn of the loop of hash_grow: an old slot is jammed into the new table if it is live. */
    method RehashSlot(s: Slot<K, V>, ghost t: Table<K, V>, ghost n: nat)
      requires Valid() && where.Length > 0 && Counted(t) && n < |t.slots| && s == t.slots[n]
      requires LiveCount(t.slots[..n]) + Vacant<K, V>(t.log + 1).used <= Full(Vacant<K, V>(t.log + 1)) + 1
      requires used <= LiveCount(t.slots[..n]) && View() == Rehash(code, t.slots[..n], Vacant(t.log + 1))
      modifies this, where
      ensures Valid() && where.Length > 0 && (where == old(where) || fresh(where)) && sizelog == t.log + 1
      ensures LiveCount(t.slots[..n + 1]) + Vacant<K, V>(t.log + 1).used <= Full(Vacant<K, V>(t.log + 1)) + 1
      ensures used <= LiveCount(t.slots[..n + 1]) && View() == Rehash(code, t.slots[..n + 1], Vacant(t.log + 1))
      decreases 1, 0
    {
      hide LiveCount, Pow2, Rehash, Step, Vacant, Valid, View;
      NextOldSlot(code, t, n);
      FullIsFull();
      assert full == Full(Vacant<K, V>(t.log + 1));
      if s.Live? {
        HashJam(s.key, s.value);
        FullIsFull();
      }
    }

    /** The new slots of hash_grow, all vacant. */
    method Vacate(size: nat)
      requires Valid() && size == where.Length - 1
      modifies this
      ensures Valid() && View() == Vacant(old(sizelog) + 1)
      ensures fresh(where) && sizelog == old(sizelog) + 1 && full == 2 * old(full) && used == 0
    {
      where := new Slot<K, V>[size + size + 1](_ => Empty);
      sizelog := sizelog + 1;
      full := full * 2;
      used := 0;
      ghost var vacant := Vacant<K, V>(sizelog);
      assert View().slots == vacant.slots;
    }
  }

  lemma FoundIsKey<K, V>(code: Code<K>, t: Table<K, V>, k: K)
    requires Counted(t) && Found(code, t, k)
    ensures t.slots[AskTable(code, t, k)].key == k
  {
    CountedHasRoom(t);
    AskStops(t.slots, Home(code, t, k), k);
  }

  /** One slot of the rehash, while the new table stays at most half full. */
  lemma NextOldSlot<K, V>(code: Code<K>, t: Table<K, V>, n: nat)
    requires Counted(t) && n < |t.slots|
    ensures var vacant := Vacant<K, V>(t.log + 1);
            && LiveCount(t.slots[..n + 1]) == LiveCount(t.slots[..n]) + (if t.slots[n].Live? then 1 else 0) <= Full(t) + 1 <= Full(vacant)
            && Rehash(code, t.slots[..n + 1], vacant)
               == var r := Rehash(code, t.slots[..n], vacant);
                  if t.slots[n].Live? && r.used <= Full(r) then Step(code, r, Jam(t.slots[n].key, t.slots[n].value)) else r
  {
    hide AskTable, Found, Grow, Place, Put, Vacant;
    assert t.slots[..n + 1][..n] == t.slots[..n];
    LiveCountPrefix(t.slots, n + 1);
    var vacant := Vacant<K, V>(t.log + 1);
    assert Full(t) + 1 <= Full(vacant);
    assert t.used == LiveCount(t.slots) <= Full(t) + 1;
    assert LiveCount(t.slots[..n + 1]) == LiveCount(t.slots[..n]) + (if t.slots[n].Live? then 1 else 0);
    var r := Rehash(code, t.slots[..n], vacant);
    assert Rehash(code, t.slots[..n + 1], vacant)
        == if t.slots[n].Live? then Place(code, r, t.slots[n].key, t.slots[n].value) else r;
    if t.slots[n].Live? {
    }
  }

  lemma {:induction false} LiveCountPrefix<K, V>(slots: seq<Slot<K, V>>, n: nat)
    requires n <= |slots|
    ensures LiveCount(slots[..n]) <= LiveCount(slots)
  {
    if n < |slots| {
      LiveCountPrefix(slots[..|slots| - 1], n);
      assert slots[..|slots| - 1][..n] == slots[..n];
    } else {
      assert slots[..n] == slots;
    }
  }
}
