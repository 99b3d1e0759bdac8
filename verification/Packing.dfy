/** How rplay_pack writes a packet: the macro COPY, the buffer it grows, and runs of packs on one object
    (librplay/rplay.c).

  A memcpy past the end of what is allocated has no meaning in C.  The model stops there and reports
  `Outside`; when that can happen is the subject of the lemmas on runs.
 */
module Packing {
  import opened Packet
  import opened Runs
  import opened Types

  const COPY_SIZE := 128

  // ----- rplay_pack as the list of its COPYs

  function ByteCopies(tag: Byte, x: int, default: int): seq<Bytes> {
    if x != default then [[tag], [Low8(x)]] else []
  }

  function StringCopies(tag: Byte, s: Bytes): seq<Bytes> {
    [[tag], s + [0]]
  }

  function NonEmptyCopies(tag: Byte, s: Bytes): seq<Bytes> {
    if s != [] then StringCopies(tag, s) else []
  }

  function LongCopies(tag: Byte, x: int, default: int): seq<Bytes> {
    if x != default then [[tag], Be32(x)] else []
  }

  function DataCopies(rp: Rplay): seq<Bytes> {
    if rp.dataSize > 0 then [[DATA_SIZE], Be16(rp.dataSize), [DATA], rp.data] else []
  }

  function HeadCopies(rp: Rplay): seq<Bytes> {
    [[PACKET_ID], [Low8(rp.command)]]
    + ByteCopies(LIST_COUNT, rp.count, DEFAULT_LIST_COUNT) + ByteCopies(PRIORITY, rp.priority, DEFAULT_PRIORITY)
    + NonEmptyCopies(LIST_NAME, rp.listName) + LongCopies(ID, rp.id, 0) + LongCopies(SEQUENCE, rp.sequence, NO_SEQUENCE)
    + DataCopies(rp)
  }

  function ServerCopies(a: Attrs): seq<Bytes> {
    (if a.server.Some? then StringCopies(RPTP_SERVER, a.server.value) else [])
    + (if a.port != RPTP_PORT then [[RPTP_SERVER_PORT], Be16(a.port)] else [])
    + (if a.search == 0 then [[RPTP_SEARCH], [0]] else [])
  }

  function SetCopies(a: Attrs): seq<Bytes> {
    NonEmptyCopies(SOUND, a.sound) + ByteCopies(LEFT_VOLUME, a.left, DEFAULT_VOLUME)
    + ByteCopies(RIGHT_VOLUME, a.right, DEFAULT_VOLUME) + ByteCopies(COUNT, a.count, DEFAULT_COUNT)
    + ServerCopies(a) + LongCopies(SAMPLE_RATE, a.sampleRate, DEFAULT_SAMPLE_RATE) + NonEmptyCopies(CLIENT_DATA, a.clientData)
    + [[NULL]]
  }

  /** The loop over the attribute sets, from set `i` on. */
  function SetsCopiesFrom(attrs: seq<Attrs>, randomSound: int, i: nat): seq<Bytes>
    requires i <= |attrs|
    decreases |attrs| - i
  {
    if i == |attrs| then []
    else if randomSound != DEFAULT_RANDOM_SOUND && i != randomSound then SetsCopiesFrom(attrs, randomSound, i + 1)
    else SetCopies(attrs[i]) + SetsCopiesFrom(attrs, randomSound, i + 1)
  }

  function EndCopies(rp: Rplay): seq<Bytes> {
    (if rp.attrs == [] then [[NULL]] else []) + [[NULL]]
  }

  function Copies(rp: Rplay): seq<Bytes> {
    HeadCopies(rp) + (SetsCopiesFrom(rp.attrs, rp.randomSound, 0) + EndCopies(rp))
  }

  function Joined(copies: seq<Bytes>): Bytes {
    if copies == [] then [] else copies[0] + Joined(copies[1..])
  }

  lemma {:induction false} JoinedConcat(a: seq<Bytes>, b: seq<Bytes>)
    ensures Joined(a + b) == Joined(a) + Joined(b)
  {
    if a == [] {
      assert a + b == b;
    } else {
      assert (a + b)[1..] == a[1..] + b;
      JoinedConcat(a[1..], b);
    }
  }

  lemma JoinedTwo(x: Bytes, y: Bytes)
    ensures Joined([x, y]) == x + y
  {
    assert [x, y][1..] == [y];
    assert Joined([y]) == y + Joined([]);
  }

  lemma JoinedByte(tag: Byte, x: int, default: int)
    ensures Joined(ByteCopies(tag, x, default)) == PackByte(tag, x, default)
  {
    JoinedTwo([tag], [Low8(x)]);
  }

  lemma JoinedString(tag: Byte, s: Bytes)
    ensures Joined(StringCopies(tag, s)) == [tag] + s + [0]
    ensures Joined(NonEmptyCopies(tag, s)) == PackString(tag, s)
  {
    JoinedTwo([tag], s + [0]);
  }

  lemma JoinedLong(tag: Byte, x: int, default: int)
    ensures Joined(LongCopies(tag, x, default)) == PackLong(tag, x, default)
  {
    JoinedTwo([tag], Be32(x));
  }

  lemma JoinedData(rp: Rplay)
    ensures Joined(DataCopies(rp)) == if rp.dataSize > 0 then [DATA_SIZE] + Be16(rp.dataSize) + [DATA] + rp.data else []
  {
    JoinedConcat([[DATA_SIZE], Be16(rp.dataSize)], [[DATA], rp.data]);
    JoinedTwo([DATA_SIZE], Be16(rp.dataSize));
    JoinedTwo([DATA], rp.data);
    hide Joined, Be16;
    assert [[DATA_SIZE], Be16(rp.dataSize)] + [[DATA], rp.data] == [[DATA_SIZE], Be16(rp.dataSize), [DATA], rp.data];
    if rp.dataSize <= 0 {
      assert Joined([]) == [] by { JoinedNothing(); }
    }
  }

  lemma JoinedNothing()
    ensures Joined([]) == []
  {
  }

  lemma JoinedSix(a: seq<Bytes>, b: seq<Bytes>, c: seq<Bytes>, d: seq<Bytes>, e: seq<Bytes>, f: seq<Bytes>)
    ensures Joined(a + b + c + d + e + f) == Joined(a) + Joined(b) + Joined(c) + Joined(d) + Joined(e) + Joined(f)
  {
    JoinedConcat(a, b);
    JoinedConcat(a + b, c);
    JoinedConcat(a + b + c, d);
    JoinedConcat(a + b + c + d, e);
    JoinedConcat(a + b + c + d + e, f);
  }

  lemma JoinedHead(rp: Rplay)
    ensures Joined(HeadCopies(rp)) == PackHead(rp)
  {
    JoinedTwo([PACKET_ID], [Low8(rp.command)]);
    JoinedByte(LIST_COUNT, rp.count, DEFAULT_LIST_COUNT);
    JoinedByte(PRIORITY, rp.priority, DEFAULT_PRIORITY);
    JoinedString(LIST_NAME, rp.listName);
    JoinedLong(ID, rp.id, 0);
    JoinedLong(SEQUENCE, rp.sequence, NO_SEQUENCE);
    JoinedData(rp);
    hide Joined, ByteCopies, NonEmptyCopies, LongCopies, DataCopies, PackByte, PackString, PackLong, Low8, Be16;
    var start := [[PACKET_ID], [Low8(rp.command)]];
    var count := ByteCopies(LIST_COUNT, rp.count, DEFAULT_LIST_COUNT);
    var priority := ByteCopies(PRIORITY, rp.priority, DEFAULT_PRIORITY);
    var name := NonEmptyCopies(LIST_NAME, rp.listName);
    var id, sequence := LongCopies(ID, rp.id, 0), LongCopies(SEQUENCE, rp.sequence, NO_SEQUENCE);
    JoinedSix(start, count, priority, name, id, sequence);
    JoinedConcat(start + count + priority + name + id + sequence, DataCopies(rp));
  }

  lemma JoinedServer(a: Attrs)
    ensures Joined(ServerCopies(a)) == PackServer(a)
  {
    var server := if a.server.Some? then StringCopies(RPTP_SERVER, a.server.value) else [];
    var port := if a.port != RPTP_PORT then [[RPTP_SERVER_PORT], Be16(a.port)] else [];
    var search := if a.search == 0 then [[RPTP_SEARCH], [0 as Byte]] else [];
    if a.server.Some? { JoinedString(RPTP_SERVER, a.server.value); }
    JoinedTwo([RPTP_SERVER_PORT], Be16(a.port));
    JoinedTwo([RPTP_SEARCH], [0]);
    JoinedNothing();
    JoinedConcat(server, port);
    JoinedConcat(server + port, search);
    hide Joined, StringCopies, Be16;
  }

  lemma JoinedSet(a: Attrs)
    ensures Joined(SetCopies(a)) == PackAttrs(a) + [NULL]
  {
    JoinedString(SOUND, a.sound);
    JoinedByte(LEFT_VOLUME, a.left, DEFAULT_VOLUME);
    JoinedByte(RIGHT_VOLUME, a.right, DEFAULT_VOLUME);
    JoinedByte(COUNT, a.count, DEFAULT_COUNT);
    JoinedServer(a);
    JoinedLong(SAMPLE_RATE, a.sampleRate, DEFAULT_SAMPLE_RATE);
    JoinedString(CLIENT_DATA, a.clientData);
    JoinedOne([NULL]);
    PackAttrsParts(a, [NULL]);
    hide Joined, ByteCopies, NonEmptyCopies, LongCopies, ServerCopies, PackByte, PackString, PackLong, PackServer, PackAttrs;
    var sound := NonEmptyCopies(SOUND, a.sound);
    var left, right := ByteCopies(LEFT_VOLUME, a.left, DEFAULT_VOLUME), ByteCopies(RIGHT_VOLUME, a.right, DEFAULT_VOLUME);
    var count, server := ByteCopies(COUNT, a.count, DEFAULT_COUNT), ServerCopies(a);
    var rate, client := LongCopies(SAMPLE_RATE, a.sampleRate, DEFAULT_SAMPLE_RATE), NonEmptyCopies(CLIENT_DATA, a.clientData);
    JoinedSix(sound, left, right, count, server, rate);
    JoinedConcat(sound + left + right + count + server + rate, client);
    JoinedConcat(sound + left + right + count + server + rate + client, [[NULL]]);
  }

  lemma JoinedOne(x: Bytes)
    ensures Joined([x]) == x
  {
    assert Joined([x]) == x + Joined([]);
  }

  lemma {:induction false} JoinedAllSets(attrs: seq<Attrs>, i: nat)
    requires i <= |attrs|
    ensures Joined(SetsCopiesFrom(attrs, DEFAULT_RANDOM_SOUND, i)) == PackSets(attrs[i..])
    decreases |attrs| - i
  {
    hide PackAttrs, SetCopies;
    if i < |attrs| {
      JoinedAllSets(attrs, i + 1);
      JoinedSet(attrs[i]);
      JoinedConcat(SetCopies(attrs[i]), SetsCopiesFrom(attrs, DEFAULT_RANDOM_SOUND, i + 1));
      assert attrs[i..][1..] == attrs[i + 1..];
    }
  }

  lemma {:induction false} JoinedOneSet(attrs: seq<Attrs>, r: int, i: nat)
    requires i <= |attrs| && r != DEFAULT_RANDOM_SOUND
    ensures Joined(SetsCopiesFrom(attrs, r, i)) == if i <= r < |attrs| then PackAttrs(attrs[r]) + [NULL] else []
    decreases |attrs| - i
  {
    hide PackAttrs, SetCopies;
    if i < |attrs| {
      JoinedOneSet(attrs, r, i + 1);
      JoinedSet(attrs[i]);
      JoinedConcat(SetCopies(attrs[i]), SetsCopiesFrom(attrs, r, i + 1));
    }
  }

  lemma JoinedSets(rp: Rplay)
    ensures Joined(SetsCopiesFrom(rp.attrs, rp.randomSound, 0)) == PackSets(Chosen(rp.attrs, rp.randomSound))
  {
    hide PackAttrs;
    if rp.randomSound == DEFAULT_RANDOM_SOUND {
      JoinedAllSets(rp.attrs, 0);
      assert rp.attrs[0..] == rp.attrs;
    } else {
      JoinedOneSet(rp.attrs, rp.randomSound, 0);
      var sets := Chosen(rp.attrs, rp.randomSound);
      if sets != [] {
        assert PackSets(sets) == PackAttrs(sets[0]) + [NULL] + PackSets(sets[1..]) && PackSets([]) == [];
        assert sets[1..] == [];
      }
    }
  }

  /** The COPYs of rplay_pack, one after the other, are the packet. */
  lemma CopiesAreThePacket(rp: Rplay)
    ensures Joined(Copies(rp)) == Pack(rp)
  {
    JoinedHead(rp);
    JoinedSets(rp);
    JoinedOne([NULL]);
    JoinedTwo([NULL], [NULL]);
    hide Joined, HeadCopies, SetsCopiesFrom, PackHead, PackSets;
    assert Joined(EndCopies(rp)) == (if rp.attrs == [] then [NULL] else []) + [NULL] by {
      assert [[NULL]] + [[NULL]] == [[NULL], [NULL]] && [] + [[NULL]] == [[NULL]];
    }
    JoinedConcat(SetsCopiesFrom(rp.attrs, rp.randomSound, 0), EndCopies(rp));
    JoinedConcat(HeadCopies(rp), SetsCopiesFrom(rp.attrs, rp.randomSound, 0) + EndCopies(rp));
  }

  // ----- rp->size and what is allocated

  /** rp->size, and the bytes allocated behind rp->buf. */
  datatype Room = Room(size: nat, capacity: nat)

  /** What becomes of a COPY, or of a pack: done (0), refused (-1), or a write past what is allocated. */
  datatype Status = Copied | Refused | Outside

  /** rplay_create. */
  const CREATED := Room(0, COPY_SIZE)

  /** rp->size once it holds `n` bytes, in steps of COPY_SIZE. */
  function Grown(size: nat, n: nat): (s: nat)
    ensures s >= size && s >= n
    ensures n <= size ==> s == size
    ensures n > size ==> s < n + COPY_SIZE
    decreases if n > size then n - size else 0
  {
    if n <= size then size else Grown(size + COPY_SIZE, n)
  }

  /** rp->size when the loop of COPY gives up. */
  function Overgrown(size: nat, maxPacket: nat): (s: nat)
    ensures s >= size && s > maxPacket
    decreases if size <= maxPacket then maxPacket + 1 - size else 0
  {
    if size > maxPacket then size else Overgrown(size + COPY_SIZE, maxPacket)
  }

  /** COPY of `n` bytes behind the first `len`. */
  function CopyOne(r: Room, len: nat, n: nat, maxPacket: nat): (Room, Status) {
    if len + n <= r.size then (r, if len + n <= r.capacity then Copied else Outside)
    else
      var g := Grown(r.size, len + n);
      if g <= maxPacket then (Room(g, g), Copied)
      else (Room(Overgrown(r.size + COPY_SIZE, maxPacket), r.capacity), Refused)
  }

  function CopyAll(r: Room, len: nat, copies: seq<Bytes>, maxPacket: nat): (Room, Status)
    decreases |copies|
  {
    if copies == [] then (r, Copied)
    else
      var (r1, s) := CopyOne(r, len, |copies[0]|, maxPacket);
      if s == Copied then CopyAll(r1, len + |copies[0]|, copies[1..], maxPacket) else (r1, s)
  }

  /** One call of rplay_pack. */
  function PackOnce(r: Room, rp: Rplay, maxPacket: nat): (Room, Status) {
    CopyAll(r, 0, Copies(rp), maxPacket)
  }

  function Packer(maxPacket: nat): (Room, Rplay) -> (Room, Status) {
    (r: Room, rp: Rplay) => PackOnce(r, rp, maxPacket)
  }

  /** The object may be packed: rp->size is no more than what is allocated, nor than MAX_PACKET. */
  predicate Sound(r: Room, maxPacket: nat) {
    r.size <= r.capacity && r.size <= maxPacket
  }

  /** What a refusal leaves behind. */
  predicate Broken(r: Room, maxPacket: nat) {
    r.size > maxPacket
  }

  lemma {:induction false} GrownCompose(size: nat, m: nat, n: nat)
    requires m <= n
    ensures Grown(Grown(size, m), n) == Grown(size, n) && Grown(size, m) <= Grown(size, n)
    decreases if n > size then n - size else 0
  {
    if m > size {
      GrownCompose(size + COPY_SIZE, m, n);
    }
  }

  /** Packing into a sound object stays inside what is allocated; it succeeds exactly when the packet, in
      steps of 128, fits MAX_PACKET, and a refusal leaves the object broken. */
  lemma {:induction false} SoundCopies(r: Room, len: nat, copies: seq<Bytes>, maxPacket: nat)
    requires Sound(r, maxPacket) && len <= r.size
    ensures var (r1, s) := CopyAll(r, len, copies, maxPacket);
            var g := Grown(r.size, len + |Joined(copies)|);
            && s != Outside
            && (s == Copied <==> g <= maxPacket)
            && (s == Copied ==> Sound(r1, maxPacket) && r1.size == g)
            && (s == Refused ==> Broken(r1, maxPacket))
    decreases |copies|
  {
    if copies != [] {
      var (r1, s) := CopyOne(r, len, |copies[0]|, maxPacket);
      GrownCompose(r.size, len + |copies[0]|, len + |Joined(copies)|);
      if s == Copied {
        hide Grown;
        SoundCopies(r1, len + |copies[0]|, copies[1..], maxPacket);
      }
    }
  }

  /** How many bytes get copied before the first COPY that does not fit `size`. */
  function Accepted(size: nat, len: nat, copies: seq<Bytes>): (n: nat)
    requires len <= size
    ensures len <= n <= len + |Joined(copies)| && n <= size
    ensures len + |Joined(copies)| <= size ==> n == len + |Joined(copies)|
    decreases |copies|
  {
    if copies == [] || len + |copies[0]| > size then len else Accepted(size, len + |copies[0]|, copies[1..])
  }

  /** A broken object stays broken, with what was allocated before: a pack stays inside exactly when the
      bytes it copies do, and succeeds exactly when all of them do. */
  lemma {:induction false} BrokenCopies(r: Room, len: nat, copies: seq<Bytes>, maxPacket: nat)
    requires Broken(r, maxPacket) && len <= r.size && len <= r.capacity
    ensures var (r1, s) := CopyAll(r, len, copies, maxPacket);
            && Broken(r1, maxPacket) && r1.size >= r.size && r1.capacity == r.capacity
            && (s == Outside <==> Accepted(r.size, len, copies) > r.capacity)
            && (s == Copied <==> len + |Joined(copies)| <= r.size && len + |Joined(copies)| <= r.capacity)
    decreases |copies|
  {
    if copies != [] {
      var (r1, s) := CopyOne(r, len, |copies[0]|, maxPacket);
      if s == Copied {
        BrokenCopies(r1, len + |copies[0]|, copies[1..], maxPacket);
      }
    }
  }

  // ----- runs of packs on one object

  /** Over every run of packs an object is sound exactly as long as no pack was refused. */
  lemma {:induction false} RunSoundIffNeverRefused(rps: seq<Rplay>, maxPacket: nat)
    ensures var (r, out) := Run(Packer(maxPacket), CREATED, rps);
            && (Sound(r, maxPacket) <==> Refused !in out)
            && (Broken(r, maxPacket) <==> Refused in out)
  {
    if rps != [] {
      var n := |rps| - 1;
      RunSoundIffNeverRefused(rps[..n], maxPacket);
      var (r, out) := Run(Packer(maxPacket), CREATED, rps[..n]);
      hide Run, CopyAll, Copies;
      OnePackKind(r, rps[n], maxPacket);
      RunUnfolds(rps, maxPacket);
    }
  }

  lemma RunUnfolds(rps: seq<Rplay>, maxPacket: nat)
    requires rps != []
    ensures var n := |rps| - 1;
            var (r, out) := Run(Packer(maxPacket), CREATED, rps[..n]);
            Run(Packer(maxPacket), CREATED, rps)
            == (PackOnce(r, rps[n], maxPacket).0, out + [PackOnce(r, rps[n], maxPacket).1])
  {
    hide PackOnce;
  }

  lemma OnePackKind(r: Room, rp: Rplay, maxPacket: nat)
    requires Sound(r, maxPacket) || Broken(r, maxPacket)
    ensures var (r1, s) := PackOnce(r, rp, maxPacket);
            && (Sound(r, maxPacket) && s != Refused ==> Sound(r1, maxPacket))
            && (Broken(r, maxPacket) || s == Refused ==> Broken(r1, maxPacket))
  {
    if Sound(r, maxPacket) {
      SoundCopies(r, 0, Copies(rp), maxPacket);
    } else {
      BrokenCopies(r, 0, Copies(rp), maxPacket);
    }
  }

  /** After any run of packs, the next one stays inside what is allocated exactly when none was refused, or
      the bytes it copies fit what is allocated. */
  lemma PackStaysInsideIff(rps: seq<Rplay>, rp: Rplay, maxPacket: nat)
    ensures var (r, out) := Run(Packer(maxPacket), CREATED, rps);
            PackOnce(r, rp, maxPacket).1 != Outside <==> Refused !in out || Accepted(r.size, 0, Copies(rp)) <= r.capacity
  {
    RunSoundIffNeverRefused(rps, maxPacket);
    var (r, out) := Run(Packer(maxPacket), CREATED, rps);
    hide Run, CopyAll, Copies;
    if Refused in out {
      BrokenCopies(r, 0, Copies(rp), maxPacket);
    } else {
      SoundCopies(r, 0, Copies(rp), maxPacket);
    }
  }

  /** For a packet no larger than rp->size the bytes it copies are the packet. */
  lemma WholePacketStaysInsideIff(rps: seq<Rplay>, rp: Rplay, maxPacket: nat)
    ensures var (r, out) := Run(Packer(maxPacket), CREATED, rps);
            |Pack(rp)| <= r.size ==>
              (PackOnce(r, rp, maxPacket).1 != Outside <==> Refused !in out || |Pack(rp)| <= r.capacity)
  {
    PackStaysInsideIff(rps, rp, maxPacket);
    CopiesAreThePacket(rp);
    hide Run, PackOnce, Copies, Pack;
  }

  /** No pack of a run leaves the allocation, exactly when each pack after a refusal fits what the refused
      one left. */
  lemma {:induction false} RunStaysInsideIff(rps: seq<Rplay>, maxPacket: nat)
    ensures Outside !in Run(Packer(maxPacket), CREATED, rps).1 <==> FitsWhatIsLeft(rps, maxPacket)
  {
    hide PackOnce, Copies, Accepted;
    if rps == [] {
    } else {
      var n := |rps| - 1;
      RunStaysInsideIff(rps[..n], maxPacket);
      PackStaysInsideIff(rps[..n], rps[n], maxPacket);
      RunUnfolds(rps, maxPacket);
      FitsOneMore(rps, maxPacket);
      hide Run;
    }
  }

  predicate FitsAfter(rps: seq<Rplay>, k: nat, maxPacket: nat)
    requires k < |rps|
  {
    var (r, out) := Run(Packer(maxPacket), CREATED, rps[..k]);
    Refused in out ==> Accepted(r.size, 0, Copies(rps[k])) <= r.capacity
  }

  predicate FitsWhatIsLeft(rps: seq<Rplay>, maxPacket: nat) {
    forall k :: 0 <= k < |rps| ==> FitsAfter(rps, k, maxPacket)
  }

  lemma FitsOneMore(rps: seq<Rplay>, maxPacket: nat)
    requires rps != []
    ensures var n := |rps| - 1;
            FitsWhatIsLeft(rps, maxPacket) <==> FitsWhatIsLeft(rps[..n], maxPacket) && FitsAfter(rps, n, maxPacket)
  {
    var n := |rps| - 1;
    forall k | 0 <= k < n ensures FitsAfter(rps[..n], k, maxPacket) == FitsAfter(rps, k, maxPacket) {
      assert rps[..n][..k] == rps[..k];
    }
    hide FitsAfter;
  }

  /** A refusal is for ever: nothing allocates again, whatever is packed later. */
  lemma {:induction false} RefusalIsForEver(rps: seq<Rplay>, later: seq<Rplay>, maxPacket: nat)
    requires Refused in Run(Packer(maxPacket), CREATED, rps).1
    ensures Run(Packer(maxPacket), CREATED, rps + later).0.capacity == Run(Packer(maxPacket), CREATED, rps).0.capacity
    ensures Refused in Run(Packer(maxPacket), CREATED, rps + later).1
  {
    if later == [] {
      assert rps + later == rps;
    } else {
      var n := |later| - 1;
      RefusalIsForEver(rps, later[..n], maxPacket);
      var all := rps + later;
      assert all[..|all| - 1] == rps + later[..n];
      RunUnfolds(all, maxPacket);
      var (r, out) := Run(Packer(maxPacket), CREATED, all[..|all| - 1]);
      RunSoundIffNeverRefused(all[..|all| - 1], maxPacket);
      hide Run;
      BrokenCopies(r, 0, Copies(all[|all| - 1]), maxPacket);
    }
  }

  // ----- an input that leaves the allocation

  /** A ping with `n` bytes of data. */
  function WithData(n: nat): Rplay {
    Create(17).(dataSize := n, data := seq(n, _ => 0))
  }

  lemma CopiesOfWithData(n: nat)
    requires n > 0
    ensures Copies(WithData(n))
         == [[PACKET_ID], [17], [DATA_SIZE], Be16(n), [DATA], seq(n, _ => 0), [NULL], [NULL]]
  {
    assert [[NULL]] + [[NULL]] == [[NULL], [NULL]];
  }

  /** The object is packed with more data than MAX_PACKET and refused; then 200 bytes of data, which a fresh
      object packs, are written past the 128 bytes allocated. */
  lemma RefusedThenOutside(maxPacket: nat)
    requires 256 <= maxPacket < 0x1_0000
    ensures Packable(WithData(maxPacket)) && Packable(WithData(200))
    ensures Run(Packer(maxPacket), CREATED, [WithData(maxPacket), WithData(200)]).1 == [Refused, Outside]
    ensures PackOnce(CREATED, WithData(200), maxPacket).1 == Copied
  {
    var big, small, r := WithData(maxPacket), WithData(200), Room(128, 128);
    FirstFive(CREATED, r, maxPacket, maxPacket);
    FirstFive(CREATED, r, 200, maxPacket);
    hide Copies;
    var (r1, s1) := PackOnce(CREATED, big, maxPacket);
    assert s1 == Refused && r1.size > maxPacket && r1.capacity == 128;
    FirstFive(r1, r1, 200, maxPacket);
    assert PackOnce(r1, small, maxPacket).1 == Outside;
    assert [big, small][..1] == [big] && [big][..0] == [];
    hide PackOnce;
    RunUnfolds([big], maxPacket);
    RunUnfolds([big, small], maxPacket);
  }

  /** The bytes before the data fit any room of 128; what is left is the data and two NULs. */
  lemma FirstFive(r: Room, after: Room, n: nat, maxPacket: nat)
    requires n > 0 && maxPacket >= 256
    requires after == if r == CREATED then Room(128, 128) else r
    requires r == CREATED || (r.size >= 128 && r.capacity >= 128)
    ensures PackOnce(r, WithData(n), maxPacket) == CopyData(after, n, maxPacket)
  {
    CopiesOfWithData(n);
    FirstCopy(r, after, maxPacket);
    hide Copies, Be16, CopyOne;
    var zeros: Bytes := seq(n, _ => 0);
    var tags, data: seq<Bytes> := [[PACKET_ID], [17], [DATA_SIZE], Be16(n), [DATA]], [zeros, [NULL], [NULL]];
    assert Copies(WithData(n)) == tags + data && [[PACKET_ID]] + (tags[1..] + data) == tags + data;
    CopyFirst(r, 0, [PACKET_ID], tags[1..] + data, maxPacket);
    CopyFirst(after, 0, [PACKET_ID], tags[1..] + data, maxPacket);
    FiveTags(n);
    hide CopyAll, CopyData, Joined;
    InsideCopies(after, 0, tags, data, maxPacket);
    DataAndNulls(after, zeros, maxPacket);
  }

  lemma FiveTags(n: nat)
    ensures |Joined([[PACKET_ID], [17], [DATA_SIZE], Be16(n), [DATA]])| == 6
  {
    hide Be16;
    JoinedTwo([PACKET_ID], [17]);
    JoinedTwo([DATA_SIZE], Be16(n));
    JoinedOne([DATA]);
    JoinedConcat([[PACKET_ID], [17]], [[DATA_SIZE], Be16(n)]);
    JoinedConcat([[PACKET_ID], [17], [DATA_SIZE], Be16(n)], [[DATA]]);
    hide Joined;
    assert [[PACKET_ID], [17]] + [[DATA_SIZE], Be16(n)] == [[PACKET_ID], [17], [DATA_SIZE], Be16(n)];
    assert [[PACKET_ID], [17], [DATA_SIZE], Be16(n)] + [[DATA]] == [[PACKET_ID], [17], [DATA_SIZE], Be16(n), [DATA]];
  }

  /** Copies that fit change nothing but the length. */
  lemma {:induction false} InsideCopies(r: Room, len: nat, a: seq<Bytes>, b: seq<Bytes>, maxPacket: nat)
    requires len + |Joined(a)| <= r.size && len + |Joined(a)| <= r.capacity
    ensures CopyAll(r, len, a + b, maxPacket) == CopyAll(r, len + |Joined(a)|, b, maxPacket)
    decreases |a|
  {
    if a == [] {
      assert a + b == b;
    } else {
      assert (a + b)[1..] == a[1..] + b;
      InsideCopies(r, len + |a[0]|, a[1..], b, maxPacket);
    }
  }

  lemma DataAndNulls(r: Room, data: Bytes, maxPacket: nat)
    ensures CopyAll(r, 6, [data, [NULL], [NULL]], maxPacket) == CopyData(r, |data|, maxPacket)
  {
    var n := |data|;
    var (r1, _) := CopyOne(r, 6, n, maxPacket);
    var (r2, _) := CopyOne(r1, 6 + n, 1, maxPacket);
    CopyFirst(r, 6, data, [[NULL], [NULL]], maxPacket);
    CopyFirst(r1, 6 + n, [NULL], [[NULL]], maxPacket);
    CopyFirst(r2, 7 + n, [NULL], [], maxPacket);
    hide CopyOne, CopyAll;
    assert [data] + [[NULL], [NULL]] == [data, [NULL], [NULL]] && [[NULL]] + [[NULL]] == [[NULL], [NULL]];
    assert [[NULL]] + [] == [[NULL]];
  }

  lemma FirstCopy(r: Room, after: Room, maxPacket: nat)
    requires maxPacket >= 256 && after == if r == CREATED then Room(128, 128) else r
    requires r == CREATED || (r.size >= 128 && r.capacity >= 128)
    ensures CopyOne(r, 0, 1, maxPacket) == (after, Copied) && CopyOne(after, 0, 1, maxPacket) == (after, Copied)
  {
  }

  lemma CopyFirst(r: Room, len: nat, x: Bytes, rest: seq<Bytes>, maxPacket: nat)
    ensures var (r1, s) := CopyOne(r, len, |x|, maxPacket);
            CopyAll(r, len, [x] + rest, maxPacket)
            == if s == Copied then (if rest == [] then (r1, s) else CopyAll(r1, len + |x|, rest, maxPacket)) else (r1, s)
  {
    hide CopyOne;
    assert ([x] + rest)[1..] == rest;
  }

  function CopyData(r: Room, n: nat, maxPacket: nat): (Room, Status) {
    var (r1, s) := CopyOne(r, 6, n, maxPacket);
    if s == Copied then CopyTwoNulls(r1, 6 + n, maxPacket) else (r1, s)
  }

  function CopyTwoNulls(r: Room, len: nat, maxPacket: nat): (Room, Status) {
    var (r1, s) := CopyOne(r, len, 1, maxPacket);
    if s == Copied then CopyOne(r1, len + 1, 1, maxPacket) else (r1, s)
  }

  // ----- the buffer itself

  class PacketBuffer {
    var buf: array<Byte>
    var len: nat
    var size: nat
    const maxPacket: nat

    /** The bytes of the packet are in rp->buf, which may be smaller than rp->size says. */
    ghost predicate Valid()
      reads this
    {
      len <= size && len <= buf.Length
    }

    ghost function View(): Room
      reads this
    {
      Room(size, buf.Length)
    }

    ghost function Contents(): (b: Bytes)
      requires Valid()
      reads this, buf
    {
      buf[..len]
    }

    /** rplay_create. */
    constructor (maxPacket: nat)
      ensures Valid() && fresh(buf) && this.maxPacket == maxPacket && View() == CREATED && len == 0
    {
      buf := new Byte[COPY_SIZE](_ => 0);
      len, size := 0, 0;
      this.maxPacket := maxPacket;
    }

    /** realloc to rp->size bytes. */
    method Realloc()
      requires Valid()
      modifies this`buf
      ensures Valid() && fresh(buf) && buf.Length == size && Contents() == old(Contents())
    {
      var bigger := new Byte[size](_ => 0);
      var i := 0;
      while i < len
        invariant 0 <= i <= len && bigger[..i] == buf[..i]
        modifies bigger
      {
        bigger[i] := buf[i];
        i := i + 1;
      }
      buf := bigger;
    }

    /** memcpy to the end of the packet. */
    method Append(p: Bytes)
      requires len + |p| <= size && len + |p| <= buf.Length
      modifies this`len, buf
      ensures Valid() && len == old(len) + |p| && Contents() == old(buf[..len]) + p
    {
      ghost var before := buf[..len];
      var i := 0;
      while i < |p|
        invariant 0 <= i <= |p|
        invariant buf[..len + i] == before + p[..i]
        modifies buf
      {
        buf[len + i] := p[i];
        i := i + 1;
        assert p[..i] == p[..i - 1] + [p[i - 1]];
        assert buf[..len + i] == buf[..len + i - 1] + [p[i - 1]];
      }
      assert p[..|p|] == p;
      len := len + |p|;
    }

    /** The loop of COPY, for `n` bytes in all. */
    method GrowSize(n: nat) returns (grow: nat, fits: bool)
      modifies this`size
      ensures fits <==> n <= old(size) || Grown(old(size), n) <= maxPacket
      ensures size == if fits then Grown(old(size), n) else Overgrown(old(size) + COPY_SIZE, maxPacket)
      ensures fits ==> (grow > 0 <==> n > old(size))
    {
      grow, fits := 0, true;
      while n > size
        invariant Grown(size, n) == Grown(old(size), n)
        invariant grow == 0 ==> size == old(size)
        invariant grow > 0 ==> size <= maxPacket && n > old(size)
        invariant n > old(size) ==> Overgrown(size + COPY_SIZE, maxPacket) == Overgrown(old(size) + COPY_SIZE, maxPacket)
        decreases n - size
      {
        grow := grow + 1;
        size := size + COPY_SIZE;
        if size > maxPacket {
          fits := false;
          return;
        }
      }
    }

    /** The macro COPY.  A refusal changes rp->size and nothing else. */
    method Copy(p: Bytes) returns (s: Status)
      requires Valid()
      modifies this, buf
      ensures Valid() && (View(), s) == CopyOne(old(View()), old(len), |p|, maxPacket)
      ensures Contents() == if s == Copied then old(Contents()) + p else old(Contents())
      ensures s != Copied ==> buf == old(buf)
      ensures buf == old(buf) || fresh(buf)
    {
      var grow, fits := GrowSize(len + |p|);
      if !fits {
        return Refused;
      }
      if grow > 0 {
        Realloc();
      }
      if len + |p| > buf.Length {
        return Outside;
      }
      Append(p);
      return Copied;
    }

    /** On the way to the outcome `goal` of the whole pack: `rest` is still to be copied. */
    ghost predicate Towards(goal: (Room, Status), total: Bytes, rest: seq<Bytes>)
      reads this, buf
    {
      && Valid()
      && goal == CopyAll(View(), len, rest, maxPacket)
      && total == Contents() + Joined(rest)
    }

    /** A part of the pack is done, or the pack ended in it. */
    ghost predicate Stepped(goal: (Room, Status), total: Bytes, rest: seq<Bytes>, s: Status)
      reads this, buf
    {
      if s == Copied then Towards(goal, total, rest) else Valid() && goal == (View(), s)
    }

    /** COPY, as a step towards the packet. */
    method Put(p: Bytes, ghost goal: (Room, Status), ghost total: Bytes, ghost rest: seq<Bytes>) returns (s: Status)
      requires Towards(goal, total, [p] + rest)
      modifies this, buf
      ensures Stepped(goal, total, rest, s) && (buf == old(buf) || fresh(buf))
    {
      hide CopyOne;
      assert ([p] + rest)[0] == p && ([p] + rest)[1..] == rest;
      assert Contents() + (p + Joined(rest)) == Contents() + p + Joined(rest);
      s := Copy(p);
    }

    method PutTwo(p: Bytes, q: Bytes, ghost goal: (Room, Status), ghost total: Bytes, ghost rest: seq<Bytes>) returns (s: Status)
      requires Towards(goal, total, [p, q] + rest)
      modifies this, buf
      ensures Stepped(goal, total, rest, s) && (buf == old(buf) || fresh(buf))
    {
      hide Towards;
      assert [p, q] + rest == [p] + ([q] + rest);
      s := Put(p, goal, total, [q] + rest);
      if s != Copied { return; }
      s := Put(q, goal, total, rest);
    }

    method PutByte(tag: Byte, x: int, default: int, ghost goal: (Room, Status), ghost total: Bytes, ghost rest: seq<Bytes>)
      returns (s: Status)
      requires Towards(goal, total, ByteCopies(tag, x, default) + rest)
      modifies this, buf
      ensures Stepped(goal, total, rest, s) && (buf == old(buf) || fresh(buf))
    {
      hide Towards;
      s := Copied;
      if x != default {
        s := PutTwo([tag], [Low8(x)], goal, total, rest);
      } else {
        assert ByteCopies(tag, x, default) + rest == rest;
      }
    }

    method PutNonEmpty(tag: Byte, t: Bytes, ghost goal: (Room, Status), ghost total: Bytes, ghost rest: seq<Bytes>)
      returns (s: Status)
      requires Towards(goal, total, NonEmptyCopies(tag, t) + rest)
      modifies this, buf
      ensures Stepped(goal, total, rest, s) && (buf == old(buf) || fresh(buf))
    {
      hide Towards;
      s := Copied;
      if t != [] {
        s := PutTwo([tag], t + [0], goal, total, rest);
      } else {
        assert NonEmptyCopies(tag, t) + rest == rest;
      }
    }

    method PutLong(tag: Byte, x: int, default: int, ghost goal: (Room, Status), ghost total: Bytes, ghost rest: seq<Bytes>)
      returns (s: Status)
      requires Towards(goal, total, LongCopies(tag, x, default) + rest)
      modifies this, buf
      ensures Stepped(goal, total, rest, s) && (buf == old(buf) || fresh(buf))
    {
      hide Towards, Be32;
      s := Copied;
      if x != default {
        s := PutTwo([tag], Be32(x), goal, total, rest);
      } else {
        assert LongCopies(tag, x, default) + rest == rest;
      }
    }

    method PutData(rp: Rplay, ghost goal: (Room, Status), ghost total: Bytes, ghost rest: seq<Bytes>) returns (s: Status)
      requires Towards(goal, total, DataCopies(rp) + rest)
      modifies this, buf
      ensures Stepped(goal, total, rest, s) && (buf == old(buf) || fresh(buf))
    {
      hide Towards, Be16;
      s := Copied;
      if rp.dataSize > 0 {
        assert DataCopies(rp) + rest == [[DATA_SIZE], Be16(rp.dataSize)] + ([[DATA], rp.data] + rest);
        s := PutTwo([DATA_SIZE], Be16(rp.dataSize), goal, total, [[DATA], rp.data] + rest);
        if s != Copied { return; }
        s := PutTwo([DATA], rp.data, goal, total, rest);
      } else {
        assert DataCopies(rp) + rest == rest;
      }
    }

    /** rplay_pack, up to the attribute sets. */
    method PutHead(rp: Rplay, ghost goal: (Room, Status), ghost total: Bytes, ghost rest: seq<Bytes>) returns (s: Status)
      requires Towards(goal, total, HeadCopies(rp) + rest)
      modifies this, buf
      ensures Stepped(goal, total, rest, s) && (buf == old(buf) || fresh(buf))
    {
      hide Towards, ByteCopies, NonEmptyCopies, LongCopies, DataCopies, Low8;
      ghost var data := DataCopies(rp) + rest;
      ghost var sequence := LongCopies(SEQUENCE, rp.sequence, NO_SEQUENCE) + data;
      ghost var id := LongCopies(ID, rp.id, 0) + sequence;
      ghost var name := NonEmptyCopies(LIST_NAME, rp.listName) + id;
      ghost var priority := ByteCopies(PRIORITY, rp.priority, DEFAULT_PRIORITY) + name;
      ghost var count := ByteCopies(LIST_COUNT, rp.count, DEFAULT_LIST_COUNT) + priority;
      assert HeadCopies(rp) + rest == [[PACKET_ID], [Low8(rp.command)]] + count;
      hide HeadCopies;
      s := PutTwo([PACKET_ID], [Low8(rp.command)], goal, total, count);
      if s != Copied { return; }
      s := PutByte(LIST_COUNT, rp.count, DEFAULT_LIST_COUNT, goal, total, priority);
      if s != Copied { return; }
      s := PutByte(PRIORITY, rp.priority, DEFAULT_PRIORITY, goal, total, name);
      if s != Copied { return; }
      s := PutNonEmpty(LIST_NAME, rp.listName, goal, total, id);
      if s != Copied { return; }
      s := PutLong(ID, rp.id, 0, goal, total, sequence);
      if s != Copied { return; }
      s := PutLong(SEQUENCE, rp.sequence, NO_SEQUENCE, goal, total, data);
      if s != Copied { return; }
      s := PutData(rp, goal, total, rest);
    }

    /** The server, its port, and the search flag. */
    method PutServer(a: Attrs, ghost goal: (Room, Status), ghost total: Bytes, ghost rest: seq<Bytes>) returns (s: Status)
      requires Towards(goal, total, ServerCopies(a) + rest)
      modifies this, buf
      ensures Stepped(goal, total, rest, s) && (buf == old(buf) || fresh(buf))
    {
      hide Towards, Be16;
      ghost var search := (if a.search == 0 then [[RPTP_SEARCH], [0]] else []) + rest;
      ghost var port := (if a.port != RPTP_PORT then [[RPTP_SERVER_PORT], Be16(a.port)] else []) + search;
      assert ServerCopies(a) + rest == (if a.server.Some? then StringCopies(RPTP_SERVER, a.server.value) else []) + port;
      s := Copied;
      if a.server.Some? {
        s := PutTwo([RPTP_SERVER], a.server.value + [0], goal, total, port);
        if s != Copied { return; }
      } else {
        assert [] + port == port;
      }
      if a.port != RPTP_PORT {
        s := PutTwo([RPTP_SERVER_PORT], Be16(a.port), goal, total, search);
        if s != Copied { return; }
      } else {
        assert [] + search == search;
      }
      if a.search == 0 {
        s := PutTwo([RPTP_SEARCH], [0], goal, total, rest);
      } else {
        assert [] + rest == rest;
      }
    }

    /** The body of the loop over the attribute sets. */
    method PutSet(a: Attrs, ghost goal: (Room, Status), ghost total: Bytes, ghost rest: seq<Bytes>) returns (s: Status)
      requires Towards(goal, total, SetCopies(a) + rest)
      modifies this, buf
      ensures Stepped(goal, total, rest, s) && (buf == old(buf) || fresh(buf))
    {
      hide Towards, ByteCopies, NonEmptyCopies, LongCopies, ServerCopies;
      ghost var end := [[NULL]] + rest;
      ghost var client := NonEmptyCopies(CLIENT_DATA, a.clientData) + end;
      ghost var rate := LongCopies(SAMPLE_RATE, a.sampleRate, DEFAULT_SAMPLE_RATE) + client;
      ghost var server := ServerCopies(a) + rate;
      ghost var count := ByteCopies(COUNT, a.count, DEFAULT_COUNT) + server;
      ghost var right := ByteCopies(RIGHT_VOLUME, a.right, DEFAULT_VOLUME) + count;
      ghost var left := ByteCopies(LEFT_VOLUME, a.left, DEFAULT_VOLUME) + right;
      assert SetCopies(a) + rest == NonEmptyCopies(SOUND, a.sound) + left;
      hide SetCopies;
      s := PutNonEmpty(SOUND, a.sound, goal, total, left);
      if s != Copied { return; }
      s := PutByte(LEFT_VOLUME, a.left, DEFAULT_VOLUME, goal, total, right);
      if s != Copied { return; }
      s := PutByte(RIGHT_VOLUME, a.right, DEFAULT_VOLUME, goal, total, count);
      if s != Copied { return; }
      s := PutByte(COUNT, a.count, DEFAULT_COUNT, goal, total, server);
      if s != Copied { return; }
      s := PutServer(a, goal, total, rate);
      if s != Copied { return; }
      s := PutLong(SAMPLE_RATE, a.sampleRate, DEFAULT_SAMPLE_RATE, goal, total, client);
      if s != Copied { return; }
      s := PutNonEmpty(CLIENT_DATA, a.clientData, goal, total, end);
      if s != Copied { return; }
      s := Put([NULL], goal, total, rest);
    }

    /** The loop over the attribute sets. */
    method PutSets(rp: Rplay, ghost goal: (Room, Status), ghost total: Bytes, ghost rest: seq<Bytes>) returns (s: Status)
      requires Towards(goal, total, SetsCopiesFrom(rp.attrs, rp.randomSound, 0) + rest)
      modifies this, buf
      ensures Stepped(goal, total, rest, s) && (buf == old(buf) || fresh(buf))
    {
      hide Towards, SetCopies;
      s := Copied;
      var i := 0;
      while i < |rp.attrs|
        invariant 0 <= i <= |rp.attrs| && (buf == old(buf) || fresh(buf))
        invariant Towards(goal, total, SetsCopiesFrom(rp.attrs, rp.randomSound, i) + rest)
      {
        if rp.randomSound != DEFAULT_RANDOM_SOUND && i != rp.randomSound {
          i := i + 1;
          continue;
        }
        ghost var later := SetsCopiesFrom(rp.attrs, rp.randomSound, i + 1) + rest;
        assert SetsCopiesFrom(rp.attrs, rp.randomSound, i) + rest == SetCopies(rp.attrs[i]) + later;
        s := PutSet(rp.attrs[i], goal, total, later);
        if s != Copied { return; }
        i := i + 1;
      }
      assert [] + rest == rest;
      s := Copied;
    }

    /** rplay_pack, from any state of the buffer.  The source returns 0 for `Copied` and -1 for `Refused`. */
    method RplayPack(rp: Rplay) returns (s: Status)
      modifies this, buf
      ensures Valid() && (View(), s) == PackOnce(old(View()), rp, maxPacket)
      ensures s == Copied ==> Contents() == Pack(rp)
      ensures buf == old(buf) || fresh(buf)
    {
      hide Copies, Pack, SetsCopiesFrom, HeadCopies;
      ghost var goal, total, end := PackOnce(View(), rp, maxPacket), Pack(rp), EndCopies(rp);
      ghost var sets := SetsCopiesFrom(rp.attrs, rp.randomSound, 0) + end;
      CopiesAreThePacket(rp);
      CopiesParts(rp);
      len := 0;
      assert Contents() + Joined(HeadCopies(rp) + sets) == total;
      hide Joined, CopyAll, Towards;
      assert Towards(goal, total, HeadCopies(rp) + sets);
      s := PutHead(rp, goal, total, sets);
      if s != Copied { return; }
      s := PutSets(rp, goal, total, end);
      if s != Copied { return; }
      s := PutEnd(rp, goal, total);
    }

    method PutEnd(rp: Rplay, ghost goal: (Room, Status), ghost total: Bytes) returns (s: Status)
      requires Towards(goal, total, EndCopies(rp))
      modifies this, buf
      ensures Valid() && goal == (View(), s) && (s == Copied ==> Contents() == total)
      ensures buf == old(buf) || fresh(buf)
    {
      assert EndCopies(rp) == EndCopies(rp) + [];
      if rp.attrs == [] {
        assert EndCopies(rp) == [[NULL]] + [[NULL]];
        s := Put([NULL], goal, total, [[NULL]]);
        if s != Copied { return; }
      } else {
        assert EndCopies(rp) == [[NULL]];
      }
      assert [[NULL]] + [] == [[NULL]];
      s := Put([NULL], goal, total, []);
      assert Joined([]) == [];
    }
  }

  lemma CopiesParts(rp: Rplay)
    ensures Copies(rp) == HeadCopies(rp) + (SetsCopiesFrom(rp.attrs, rp.randomSound, 0) + EndCopies(rp))
  {
    hide HeadCopies, SetsCopiesFrom, EndCopies;
  }
}
