/** The RPLAY packet: what rplay_pack prints and how rplay_unpack reads it (librplay/rplay.c).

  Longs are 32 bits.  Strings are C strings without their NUL.  A packet is unpacked without its length; a
  model of the parser that runs off the end reports `Overrun`.
 */
module Packet {
  import opened FixedPoint
  import opened Types

  // Attribute codes.
  const NULL: Byte := 0
  const SOUND: Byte := 5
  const VOLUME: Byte := 6
  const COUNT: Byte := 13
  const LIST_COUNT: Byte := 14
  const PRIORITY: Byte := 15
  const RPTP_SERVER: Byte := 18
  const RPTP_SERVER_PORT: Byte := 19
  const RPTP_SEARCH: Byte := 20
  const SAMPLE_RATE: Byte := 22
  const CLIENT_DATA: Byte := 25
  const LIST_NAME: Byte := 26
  const ID: Byte := 28
  const SEQUENCE: Byte := 29
  const DATA: Byte := 30
  const DATA_SIZE: Byte := 31
  const LEFT_VOLUME: Byte := 32
  const RIGHT_VOLUME: Byte := 33
  const PACKET_ID: Byte := 30

  // Defaults.
  const DEFAULT_VOLUME := 127
  const DEFAULT_COUNT := 1
  const DEFAULT_LIST_COUNT := 1
  const DEFAULT_PRIORITY := 0
  const DEFAULT_RANDOM_SOUND := -1
  const DEFAULT_SAMPLE_RATE := 0
  const RPTP_PORT := 5556
  const NO_SEQUENCE := 0xFFFF_FFFF

  /** RPLAY_ATTRS: one set of attributes. */
  datatype Attrs = Attrs(
    sound: Bytes, left: int, right: int, count: int, server: Option<Bytes>, port: int, search: int,
    sampleRate: int, clientData: Bytes)

  const DEFAULT_ATTRS := Attrs([], DEFAULT_VOLUME, DEFAULT_VOLUME, DEFAULT_COUNT, None, RPTP_PORT, 1, DEFAULT_SAMPLE_RATE, [])

  /** RPLAY, without its buffer. */
  datatype Rplay = Rplay(
    command: int, count: int, priority: int, listName: Bytes, id: int, sequence: int, dataSize: int, data: Bytes,
    randomSound: int, attrs: seq<Attrs>)

  /** The commands rplay_create accepts: play, stop, pause, continue, ping, reset, done, put. */
  predicate IsCommand(c: int) {
    c == 1 || c == 2 || c == 3 || c == 4 || c == 17 || c == 23 || c == 24 || c == 27
  }

  function Create(command: int): Rplay {
    Rplay(command, DEFAULT_LIST_COUNT, DEFAULT_PRIORITY, [], 0, NO_SEQUENCE, 0, [], DEFAULT_RANDOM_SOUND, [])
  }

  // ----- the printer

  function Low8(x: int): Byte { x % 256 }

  /** htons and htonl. */
  function Be16(x: int): (b: Bytes)
    ensures |b| == 2
  {
    [x / 256 % 256, x % 256]
  }

  function Be32(x: int): (b: Bytes)
    ensures |b| == 4
  {
    [x / 0x100_0000 % 256, x / 0x1_0000 % 256, x / 0x100 % 256, x % 256]
  }

  function PackByte(tag: Byte, x: int, default: int): Bytes {
    if x != default then [tag, Low8(x)] else []
  }

  function PackString(tag: Byte, s: Bytes): Bytes {
    if s != [] then [tag] + s + [0] else []
  }

  function PackLong(tag: Byte, x: int, default: int): Bytes {
    if x != default then [tag] + Be32(x) else []
  }

  /** Everything rplay_pack writes for one set, before its RPLAY_NULL. */
  function PackAttrs(a: Attrs): Bytes {
    PackString(SOUND, a.sound) + PackByte(LEFT_VOLUME, a.left, DEFAULT_VOLUME) + PackByte(RIGHT_VOLUME, a.right, DEFAULT_VOLUME)
    + PackByte(COUNT, a.count, DEFAULT_COUNT)
    + (if a.server.Some? then [RPTP_SERVER] + a.server.value + [0] else [])
    + (if a.port != RPTP_PORT then [RPTP_SERVER_PORT] + Be16(a.port) else [])
    + (if a.search == 0 then [RPTP_SEARCH, 0] else [])
    + PackLong(SAMPLE_RATE, a.sampleRate, DEFAULT_SAMPLE_RATE) + PackString(CLIENT_DATA, a.clientData)
  }

  /** The sets a packet carries: all of them, or the one that random_sound picks. */
  function Chosen(attrs: seq<Attrs>, randomSound: int): seq<Attrs> {
    if randomSound == DEFAULT_RANDOM_SOUND then attrs
    else if 0 <= randomSound < |attrs| then [attrs[randomSound]]
    else []
  }

  function PackSets(attrs: seq<Attrs>): Bytes {
    if attrs == [] then [] else PackAttrs(attrs[0]) + [NULL] + PackSets(attrs[1..])
  }

  function PackHead(rp: Rplay): Bytes {
    [PACKET_ID, Low8(rp.command)]
    + PackByte(LIST_COUNT, rp.count, DEFAULT_LIST_COUNT) + PackByte(PRIORITY, rp.priority, DEFAULT_PRIORITY)
    + PackString(LIST_NAME, rp.listName) + PackLong(ID, rp.id, 0) + PackLong(SEQUENCE, rp.sequence, NO_SEQUENCE)
    + (if rp.dataSize > 0 then [DATA_SIZE] + Be16(rp.dataSize) + [DATA] + rp.data else [])
  }

  /** The packet. */
  function Pack(rp: Rplay): Bytes {
    PackHead(rp) + PackSets(Chosen(rp.attrs, rp.randomSound)) + (if rp.attrs == [] then [NULL] else []) + [NULL]
  }

  // ----- the parser

  datatype Result<T> = Ok(value: T) | BadCommand | BadAttribute | Overrun

  /** strdup and strlen: the bytes before the first NUL. */
  function CString(b: Bytes): (r: Option<Bytes>)
    ensures r.Some? ==> |r.value| < |b| && b[..|r.value|] == r.value && b[|r.value|] == 0
    ensures r.Some? ==> forall i :: 0 <= i < |r.value| ==> b[i] != 0
    ensures r.None? ==> forall i :: 0 <= i < |b| ==> b[i] != 0
  {
    if b == [] then None
    else if b[0] == 0 then Some([])
    else match CString(b[1..]) case None => None case Some(s) => Some([b[0]] + s)
  }

  function FromBe16(b: Bytes): int
    requires |b| >= 2
  {
    (b[0] as int) * 256 + b[1]
  }

  function FromBe32(b: Bytes): int
    requires |b| >= 4
  {
    (b[0] as int) * 0x100_0000 + (b[1] as int) * 0x1_0000 + (b[2] as int) * 0x100 + b[3]
  }

  /** An unsigned long stored in an int. */
  function ToInt(x: int): int {
    if x >= 0x8000_0000 then x - 0x1_0000_0000 else x
  }

  /** rp with the sets finished so far, and the set being filled through attrsp. */
  datatype Progress = Progress(rp: Rplay, cur: Attrs)

  datatype Outcome = More(p: Progress, used: nat) | Done(rp: Rplay) | Fail(error: Result<Rplay>)

  predicate IsByteTag(tag: Byte) {
    tag == LIST_COUNT || tag == PRIORITY || tag == VOLUME || tag == LEFT_VOLUME || tag == RIGHT_VOLUME || tag == COUNT
    || tag == RPTP_SEARCH
  }

  function SetByte(p: Progress, tag: Byte, x: int): Progress {
    if tag == LIST_COUNT then p.(rp := p.rp.(count := x))
    else if tag == PRIORITY then p.(rp := p.rp.(priority := x))
    else if tag == VOLUME then p.(cur := p.cur.(left := x, right := x))
    else if tag == LEFT_VOLUME then p.(cur := p.cur.(left := x))
    else if tag == RIGHT_VOLUME then p.(cur := p.cur.(right := x))
    else if tag == COUNT then p.(cur := p.cur.(count := x))
    else p.(cur := p.cur.(search := x))
  }

  predicate IsStringTag(tag: Byte) {
    tag == LIST_NAME || tag == SOUND || tag == RPTP_SERVER || tag == CLIENT_DATA
  }

  function SetString(p: Progress, tag: Byte, s: Bytes): Progress {
    if tag == LIST_NAME then p.(rp := p.rp.(listName := s))
    else if tag == SOUND then p.(cur := p.cur.(sound := s))
    else if tag == RPTP_SERVER then p.(cur := p.cur.(server := Some(s)))
    else p.(cur := p.cur.(clientData := s))
  }

  predicate IsShortTag(tag: Byte) {
    tag == RPTP_SERVER_PORT || tag == DATA_SIZE
  }

  function SetShort(p: Progress, tag: Byte, x: int): Progress {
    if tag == DATA_SIZE then p.(rp := p.rp.(dataSize := x)) else p.(cur := p.cur.(port := x))
  }

  predicate IsLongTag(tag: Byte) {
    tag == SAMPLE_RATE || tag == ID || tag == SEQUENCE
  }

  function SetLong(p: Progress, tag: Byte, x: int): Progress {
    if tag == SAMPLE_RATE then p.(cur := p.cur.(sampleRate := x))
    else if tag == ID then p.(rp := p.rp.(id := ToInt(x)))
    else p.(rp := p.rp.(sequence := x))
  }

  /** RPLAY_NULL ends a set; a second one, only looked at, ends the packet. */
  function EndOfSet(p: Progress, rest: Bytes): Outcome {
    var rp := p.rp.(attrs := p.rp.attrs + [p.cur]);
    if rest == [] then Fail(Overrun)
    else if rest[0] == NULL then Done(rp)
    else More(Progress(rp, DEFAULT_ATTRS), 1)
  }

  /** One pass of the switch of rplay_unpack, at the packet position `b`. */
  function Step(p: Progress, b: Bytes): (o: Outcome)
    requires b != []
    ensures o.More? ==> 1 <= o.used <= |b|
    ensures o.Fail? ==> !o.error.Ok?
  {
    var tag, rest := b[0], b[1..];
    if tag == NULL then EndOfSet(p, rest)
    else if IsByteTag(tag) then (if |rest| < 1 then Fail(Overrun) else More(SetByte(p, tag, rest[0]), 2))
    else if IsStringTag(tag) then
      match CString(rest)
      case None => Fail(Overrun)
      case Some(s) => More(SetString(p, tag, s), |s| + 2)
    else if IsShortTag(tag) then (if |rest| < 2 then Fail(Overrun) else More(SetShort(p, tag, FromBe16(rest)), 3))
    else if IsLongTag(tag) then (if |rest| < 4 then Fail(Overrun) else More(SetLong(p, tag, FromBe32(rest)), 5))
    else if tag == DATA then
      if p.rp.dataSize < 0 || |rest| < p.rp.dataSize then Fail(Overrun)
      else More(p.(rp := p.rp.(data := rest[..p.rp.dataSize])), 1 + p.rp.dataSize)
    else Fail(BadAttribute)
  }

  function Parse(p: Progress, b: Bytes): Result<Rplay>
    decreases |b|
  {
    if b == [] then Overrun
    else match Step(p, b)
      case More(q, used) => Parse(q, b[used..])
      case Done(rp) => Ok(rp)
      case Fail(error) => error
  }

  /** rplay_unpack. */
  function Unpack(packet: Bytes): Result<Rplay> {
    if |packet| < 2 then Overrun
    else if !IsCommand(packet[1]) then BadCommand
    else Parse(Progress(Create(packet[1]), DEFAULT_ATTRS), packet[2..])
  }

  // ----- reading back one field

  predicate NulFree(s: Bytes) {
    forall i :: 0 <= i < |s| ==> s[i] != 0
  }

  lemma {:induction false} CStringOf(s: Bytes, rest: Bytes)
    requires NulFree(s)
    ensures CString(s + [0] + rest) == Some(s)
  {
    var b := s + [0] + rest;
    if s != [] {
      CStringOf(s[1..], rest);
      assert b[1..] == s[1..] + [0] + rest;
      assert [s[0]] + s[1..] == s;
    }
  }

  lemma ParseString(p: Progress, tag: Byte, s: Bytes, rest: Bytes)
    requires IsStringTag(tag) && NulFree(s)
    ensures Parse(p, [tag] + s + [0] + rest) == Parse(SetString(p, tag, s), rest)
  {
    hide SetString;
    var b := [tag] + s + [0] + rest;
    assert b[1..] == s + [0] + rest;
    CStringOf(s, rest);
    assert Step(p, b) == More(SetString(p, tag, s), |s| + 2);
    assert b[|s| + 2..] == rest;
  }

  lemma ParsePackString(p: Progress, tag: Byte, s: Bytes, rest: Bytes)
    requires IsStringTag(tag) && NulFree(s) && (s == [] ==> SetString(p, tag, s) == p)
    ensures Parse(p, PackString(tag, s) + rest) == Parse(SetString(p, tag, s), rest)
  {
    if s == [] {
      assert [] + rest == rest;
    } else {
      ParseString(p, tag, s, rest);
    }
  }

  lemma ParsePackByte(p: Progress, tag: Byte, x: int, default: int, rest: Bytes)
    requires IsByteTag(tag) && 0 <= x < 256 && (x == default ==> SetByte(p, tag, x) == p)
    ensures Parse(p, PackByte(tag, x, default) + rest) == Parse(SetByte(p, tag, x), rest)
  {
    hide SetByte;
    if x == default {
      assert [] + rest == rest;
    } else {
      var b := [tag, x] + rest;
      assert Step(p, b) == More(SetByte(p, tag, x), 2);
      assert b[2..] == rest;
    }
  }

  lemma Be32RoundTrip(x: int, rest: Bytes)
    ensures FromBe32(Be32(x) + rest) == x % 0x1_0000_0000
  {
    BigEndianDigits(x);
  }

  lemma BigEndianDigits(x: int)
    ensures x / 0x100_0000 % 256 * 0x100_0000 + x / 0x1_0000 % 256 * 0x1_0000 + x / 0x100 % 256 * 0x100 + x % 256
         == x % 0x1_0000_0000
  {
    var a, b, c := x / 0x100, x / 0x1_0000, x / 0x100_0000;
    DivUnique(x, 0x1_0000, a / 256);
    DivUnique(x, 0x100_0000, b / 256);
    DivUnique(x, 0x1_0000_0000, c / 256);
  }

  lemma ParsePackLong(p: Progress, tag: Byte, x: int, default: int, rest: Bytes)
    requires IsLongTag(tag) && (x == default ==> SetLong(p, tag, x % 0x1_0000_0000) == p)
    ensures Parse(p, PackLong(tag, x, default) + rest) == Parse(SetLong(p, tag, x % 0x1_0000_0000), rest)
  {
    hide SetLong;
    if x == default {
      assert [] + rest == rest;
    } else {
      var b := [tag] + Be32(x) + rest;
      assert b[1..] == Be32(x) + rest;
      Be32RoundTrip(x, rest);
      hide Be32, FromBe32;
      assert Step(p, b) == More(SetLong(p, tag, x % 0x1_0000_0000), 5);
      assert b[5..] == rest;
    }
  }

  lemma ParseShort(p: Progress, tag: Byte, x: int, rest: Bytes)
    requires IsShortTag(tag) && 0 <= x < 0x1_0000
    ensures Parse(p, [tag] + Be16(x) + rest) == Parse(SetShort(p, tag, x), rest)
  {
    hide SetShort;
    var b := [tag] + Be16(x) + rest;
    assert b[1..] == Be16(x) + rest;
    assert FromBe16(Be16(x) + rest) == x;
    hide Be16, FromBe16;
    assert Step(p, b) == More(SetShort(p, tag, x), 3);
    assert b[3..] == rest;
  }

  // ----- reading back one set, all sets, the head

  /** The values that survive their field widths. */
  predicate PackableAttrs(a: Attrs) {
    && NulFree(a.sound) && NulFree(a.clientData) && (a.server.Some? ==> NulFree(a.server.value))
    && 0 <= a.left < 256 && 0 <= a.right < 256 && 0 <= a.count < 256
    && 0 <= a.port < 0x1_0000 && 0 <= a.search <= 1 && 0 <= a.sampleRate < 0x1_0000_0000
  }

  lemma ParseServer(p: Progress, server: Option<Bytes>, rest: Bytes)
    requires (server.Some? ==> NulFree(server.value)) && p.cur.server == None
    ensures Parse(p, (if server.Some? then [RPTP_SERVER] + server.value + [0] else []) + rest)
         == Parse(p.(cur := p.cur.(server := server)), rest)
  {
    if server.Some? {
      ParseString(p, RPTP_SERVER, server.value, rest);
    } else {
      assert [] + rest == rest;
      assert p.(cur := p.cur.(server := server)) == p;
    }
  }

  lemma ParsePort(p: Progress, port: int, rest: Bytes)
    requires 0 <= port < 0x1_0000 && p.cur.port == RPTP_PORT
    ensures Parse(p, (if port != RPTP_PORT then [RPTP_SERVER_PORT] + Be16(port) else []) + rest)
         == Parse(p.(cur := p.cur.(port := port)), rest)
  {
    if port != RPTP_PORT {
      ParseShort(p, RPTP_SERVER_PORT, port, rest);
    } else {
      assert [] + rest == rest;
      assert p.(cur := p.cur.(port := port)) == p;
    }
  }

  lemma ParseSearch(p: Progress, search: int, rest: Bytes)
    requires 0 <= search <= 1 && p.cur.search == 1
    ensures Parse(p, (if search == 0 then [RPTP_SEARCH, 0] else []) + rest)
         == Parse(p.(cur := p.cur.(search := search)), rest)
  {
    ParsePackByte(p, RPTP_SEARCH, search, 1, rest);
    assert PackByte(RPTP_SEARCH, search, 1) == if search == 0 then [RPTP_SEARCH, 0] else [];
  }

  /** The second half of a set. */
  lemma ParseTail(p: Progress, a: Attrs, rest: Bytes)
    requires PackableAttrs(a) && p.cur == DEFAULT_ATTRS.(sound := a.sound, left := a.left, right := a.right, count := a.count)
    ensures Parse(p, PackServer(a) + (PackLong(SAMPLE_RATE, a.sampleRate, DEFAULT_SAMPLE_RATE) + (PackString(CLIENT_DATA, a.clientData) + rest)))
         == Parse(Progress(p.rp, a), rest)
  {
    hide Parse, PackLong, PackString, Be16;
    var e := PackString(CLIENT_DATA, a.clientData) + rest;
    var d := PackLong(SAMPLE_RATE, a.sampleRate, DEFAULT_SAMPLE_RATE) + e;
    var c := (if a.search == 0 then [RPTP_SEARCH, 0] else []) + d;
    var b := (if a.port != RPTP_PORT then [RPTP_SERVER_PORT] + Be16(a.port) else []) + c;
    assert PackServer(a) + d == (if a.server.Some? then [RPTP_SERVER] + a.server.value + [0] else []) + b;
    ParseServer(p, a.server, b);
    var q := p.(cur := p.cur.(server := a.server));
    ParsePort(q, a.port, c);
    var r := q.(cur := q.cur.(port := a.port));
    ParseSearch(r, a.search, d);
    var s := r.(cur := r.cur.(search := a.search));
    ParsePackLong(s, SAMPLE_RATE, a.sampleRate, DEFAULT_SAMPLE_RATE, e);
    var t := SetLong(s, SAMPLE_RATE, a.sampleRate);
    ParsePackString(t, CLIENT_DATA, a.clientData, rest);
  }

  /** One set reads back as itself. */
  lemma ParseAttrs(rp: Rplay, a: Attrs, rest: Bytes)
    requires PackableAttrs(a)
    ensures Parse(Progress(rp, DEFAULT_ATTRS), PackAttrs(a) + rest) == Parse(Progress(rp, a), rest)
  {
    hide Parse, PackByte, PackLong, PackString, Be16, PackAttrs;
    var p := Progress(rp, DEFAULT_ATTRS);
    var tail := PackServer(a) + (PackLong(SAMPLE_RATE, a.sampleRate, DEFAULT_SAMPLE_RATE) + (PackString(CLIENT_DATA, a.clientData) + rest));
    var c := PackByte(COUNT, a.count, DEFAULT_COUNT) + tail;
    var b := PackByte(RIGHT_VOLUME, a.right, DEFAULT_VOLUME) + c;
    var l := PackByte(LEFT_VOLUME, a.left, DEFAULT_VOLUME) + b;
    PackAttrsParts(a, rest);
    hide PackServer;
    ParsePackString(p, SOUND, a.sound, l);
    var q := SetString(p, SOUND, a.sound);
    ParsePackByte(q, LEFT_VOLUME, a.left, DEFAULT_VOLUME, b);
    var r := SetByte(q, LEFT_VOLUME, a.left);
    ParsePackByte(r, RIGHT_VOLUME, a.right, DEFAULT_VOLUME, c);
    var s := SetByte(r, RIGHT_VOLUME, a.right);
    ParsePackByte(s, COUNT, a.count, DEFAULT_COUNT, tail);
    var t := SetByte(s, COUNT, a.count);
    ParseTail(t, a, rest);
  }

  /** A set packs to nothing exactly when everything in it is the default, and to something that does not
      begin with RPLAY_NULL otherwise. */
  lemma PackAttrsHead(a: Attrs)
    requires PackableAttrs(a)
    ensures PackAttrs(a) == [] <==> a == DEFAULT_ATTRS
    ensures PackAttrs(a) != [] ==> PackAttrs(a)[0] != NULL
  {
  }

  /** The sets that survive: up to the first one after the first that packs to nothing. */
  function Kept(sets: seq<Attrs>): (kept: seq<Attrs>)
    ensures kept <= sets
  {
    if |sets| <= 1 || sets[1] == DEFAULT_ATTRS then sets[..Least(|sets|, 1)] else [sets[0]] + Kept(sets[1..])
  }

  function Least(a: nat, b: nat): nat {
    if a < b then a else b
  }

  predicate NoDefaultAfterFirst(sets: seq<Attrs>) {
    forall k :: 1 <= k < |sets| ==> sets[k] != DEFAULT_ATTRS
  }

  lemma {:induction false} KeptAllIff(sets: seq<Attrs>)
    ensures Kept(sets) == sets <==> NoDefaultAfterFirst(sets)
  {
    if |sets| <= 1 {
    } else if sets[1] != DEFAULT_ATTRS {
      KeptAllIff(sets[1..]);
      assert [sets[0]] + sets[1..] == sets;
      assert forall k :: 1 <= k < |sets[1..]| ==> sets[1..][k] == sets[k + 1];
    }
  }

  predicate AllPackable(sets: seq<Attrs>) {
    forall k :: 0 <= k < |sets| ==> PackableAttrs(sets[k])
  }

  lemma {:induction false} ParseSets(rp: Rplay, sets: seq<Attrs>)
    requires sets != [] && AllPackable(sets)
    ensures Parse(Progress(rp, DEFAULT_ATTRS), PackSets(sets) + [NULL]) == Ok(rp.(attrs := rp.attrs + Kept(sets)))
    decreases |sets|
  {
    hide Kept, PackSets, PackableAttrs, Parse;
    assert PackableAttrs(sets[0]) && AllPackable(sets[1..]);
    var end := PackSets(sets[1..]) + [NULL];
    ParseFirstSet(rp, sets);
    EndOfSets(sets[1..]);
    KeptCases(sets);
    if end[0] == NULL {
      SetEndsPacket(rp, sets[0], end);
    } else {
      SetGoesOn(rp, sets[0], end);
      ParseSets(rp.(attrs := rp.attrs + [sets[0]]), sets[1..]);
      assert rp.attrs + [sets[0]] + Kept(sets[1..]) == rp.attrs + ([sets[0]] + Kept(sets[1..]));
    }
  }

  lemma KeptCases(sets: seq<Attrs>)
    requires sets != []
    ensures sets[1..] == [] || sets[1..][0] == DEFAULT_ATTRS ==> Kept(sets) == [sets[0]]
    ensures sets[1..] != [] && sets[1..][0] != DEFAULT_ATTRS ==> Kept(sets) == [sets[0]] + Kept(sets[1..])
  {
  }

  lemma ParseFirstSet(rp: Rplay, sets: seq<Attrs>)
    requires sets != [] && PackableAttrs(sets[0])
    ensures Parse(Progress(rp, DEFAULT_ATTRS), PackSets(sets) + [NULL])
         == Parse(Progress(rp, sets[0]), [NULL] + (PackSets(sets[1..]) + [NULL]))
  {
    hide PackAttrs, PackableAttrs, Parse;
    var end := PackSets(sets[1..]) + [NULL];
    assert PackSets(sets) + [NULL] == PackAttrs(sets[0]) + ([NULL] + end);
    ParseAttrs(rp, sets[0], [NULL] + end);
  }

  /** The byte behind a set says whether the next set packs to anything. */
  lemma EndOfSets(later: seq<Attrs>)
    requires AllPackable(later)
    ensures (PackSets(later) + [NULL])[0] == NULL <==> later == [] || later[0] == DEFAULT_ATTRS
  {
    if later != [] {
      PackAttrsHead(later[0]);
    }
    hide PackAttrs;
  }

  lemma SetEndsPacket(rp: Rplay, a: Attrs, end: Bytes)
    requires end != [] && end[0] == NULL
    ensures Parse(Progress(rp, a), [NULL] + end) == Ok(rp.(attrs := rp.attrs + [a]))
  {
    assert ([NULL] + end)[1..] == end;
  }

  lemma SetGoesOn(rp: Rplay, a: Attrs, end: Bytes)
    requires end != [] && end[0] != NULL
    ensures Parse(Progress(rp, a), [NULL] + end) == Parse(Progress(rp.(attrs := rp.attrs + [a]), DEFAULT_ATTRS), end)
  {
    assert ([NULL] + end)[1..] == end;
  }

  /** The values of an object that survive their field widths. */
  predicate Packable(rp: Rplay) {
    && IsCommand(rp.command) && 0 <= rp.count < 256 && 0 <= rp.priority < 256 && NulFree(rp.listName)
    && -0x8000_0000 <= rp.id < 0x8000_0000 && 0 <= rp.sequence < 0x1_0000_0000
    && 0 <= rp.dataSize == |rp.data| < 0x1_0000
    && AllPackable(rp.attrs)
  }

  /** rp as it reads back, with some attribute sets. */
  function Restored(rp: Rplay, attrs: seq<Attrs>): Rplay {
    rp.(randomSound := DEFAULT_RANDOM_SOUND, attrs := attrs)
  }

  lemma ParseDataBytes(p: Progress, data: Bytes, rest: Bytes)
    requires p.rp.dataSize == |data|
    ensures Parse(p, [DATA] + data + rest) == Parse(p.(rp := p.rp.(data := data)), rest)
  {
    var b := [DATA] + data + rest;
    assert b[1..] == data + rest;
    assert Step(p, b) == More(p.(rp := p.rp.(data := data)), 1 + |data|);
    assert b[1 + |data|..] == rest;
  }

  lemma ParseData(p: Progress, data: Bytes, rest: Bytes)
    requires |data| < 0x1_0000 && p.rp.dataSize == 0 && p.rp.data == []
    ensures Parse(p, (if |data| > 0 then [DATA_SIZE] + Be16(|data|) + [DATA] + data else []) + rest)
         == Parse(p.(rp := p.rp.(dataSize := |data|, data := data)), rest)
  {
    hide Parse, Be16;
    if |data| > 0 {
      var b := [DATA] + data + rest;
      assert [DATA_SIZE] + Be16(|data|) + [DATA] + data + rest == [DATA_SIZE] + Be16(|data|) + b;
      ParseShort(p, DATA_SIZE, |data|, b);
      ParseDataBytes(SetShort(p, DATA_SIZE, |data|), data, rest);
    } else {
      assert [] + rest == rest;
      assert p.(rp := p.rp.(dataSize := |data|, data := data)) == p;
    }
  }

  lemma ParseHead(rp: Rplay, rest: Bytes)
    requires Packable(rp)
    ensures Unpack(PackHead(rp) + rest) == Parse(Progress(Restored(rp, []), DEFAULT_ATTRS), rest)
  {
    hide Parse, PackByte, PackLong, PackString, Be16;
    var p := Progress(Create(rp.command), DEFAULT_ATTRS);
    var data := (if rp.dataSize > 0 then [DATA_SIZE] + Be16(rp.dataSize) + [DATA] + rp.data else []) + rest;
    var sequence := PackLong(SEQUENCE, rp.sequence, NO_SEQUENCE) + data;
    var id := PackLong(ID, rp.id, 0) + sequence;
    var name := PackString(LIST_NAME, rp.listName) + id;
    var priority := PackByte(PRIORITY, rp.priority, DEFAULT_PRIORITY) + name;
    var b := PackHead(rp) + rest;
    assert b == [PACKET_ID, Low8(rp.command)] + (PackByte(LIST_COUNT, rp.count, DEFAULT_LIST_COUNT) + priority);
    assert b[2..] == PackByte(LIST_COUNT, rp.count, DEFAULT_LIST_COUNT) + priority && b[1] == rp.command;
    ParsePackByte(p, LIST_COUNT, rp.count, DEFAULT_LIST_COUNT, priority);
    var q := SetByte(p, LIST_COUNT, rp.count);
    ParsePackByte(q, PRIORITY, rp.priority, DEFAULT_PRIORITY, name);
    var r := SetByte(q, PRIORITY, rp.priority);
    ParsePackString(r, LIST_NAME, rp.listName, id);
    var s := SetString(r, LIST_NAME, rp.listName);
    ParsePackLong(s, ID, rp.id, 0, sequence);
    var t := SetLong(s, ID, rp.id % 0x1_0000_0000);
    assert t.rp.id == rp.id;
    ParsePackLong(t, SEQUENCE, rp.sequence, NO_SEQUENCE, data);
    var u := SetLong(t, SEQUENCE, rp.sequence % 0x1_0000_0000);
    ParseData(u, rp.data, rest);
  }

  /** What comes back, for every object whose values fit their fields. */
  lemma UnpackPack(rp: Rplay)
    requires Packable(rp)
    ensures Unpack(Pack(rp)) ==
      if rp.attrs == [] then Ok(Restored(rp, [DEFAULT_ATTRS]))
      else if Chosen(rp.attrs, rp.randomSound) == [] then Overrun
      else Ok(Restored(rp, Kept(Chosen(rp.attrs, rp.randomSound))))
  {
    var sets := Chosen(rp.attrs, rp.randomSound);
    var q := Restored(rp, []);
    if rp.attrs == [] {
      assert Pack(rp) == PackHead(rp) + [NULL, NULL];
      ParseHead(rp, [NULL, NULL]);
      hide PackHead, Unpack;
      assert Step(Progress(q, DEFAULT_ATTRS), [NULL, NULL]) == Done(Restored(rp, [DEFAULT_ATTRS]));
    } else if sets == [] {
      assert Pack(rp) == PackHead(rp) + [NULL];
      ParseHead(rp, [NULL]);
      hide PackHead, Unpack;
      assert Step(Progress(q, DEFAULT_ATTRS), [NULL]) == Fail(Overrun);
    } else {
      assert Pack(rp) == PackHead(rp) + (PackSets(sets) + [NULL]);
      ParseHead(rp, PackSets(sets) + [NULL]);
      hide PackHead, Unpack, PackSets, Parse;
      ParseSets(q, sets);
      assert [] + Kept(sets) == Kept(sets);
    }
  }

  /** The packet restores the object exactly when there is a set, no random sound is picked, and no set but
      the first is all defaults. */
  lemma RoundTripIff(rp: Rplay)
    requires Packable(rp)
    ensures Unpack(Pack(rp)) == Ok(rp) <==>
            rp.attrs != [] && rp.randomSound == DEFAULT_RANDOM_SOUND && NoDefaultAfterFirst(rp.attrs)
  {
    UnpackPack(rp);
    KeptAllIff(rp.attrs);
    hide Unpack, Pack, Kept;
  }

  lemma PackAttrsParts(a: Attrs, rest: Bytes)
    ensures PackAttrs(a) + rest
         == PackString(SOUND, a.sound) + (PackByte(LEFT_VOLUME, a.left, DEFAULT_VOLUME)
            + (PackByte(RIGHT_VOLUME, a.right, DEFAULT_VOLUME) + (PackByte(COUNT, a.count, DEFAULT_COUNT)
            + (PackServer(a) + (PackLong(SAMPLE_RATE, a.sampleRate, DEFAULT_SAMPLE_RATE)
            + (PackString(CLIENT_DATA, a.clientData) + rest))))))
  {
    hide PackString, PackByte, PackLong;
  }

  function PackServer(a: Attrs): Bytes {
    (if a.server.Some? then [RPTP_SERVER] + a.server.value + [0] else [])
    + (if a.port != RPTP_PORT then [RPTP_SERVER_PORT] + Be16(a.port) else [])
    + (if a.search == 0 then [RPTP_SEARCH, 0] else [])
  }

  // ----- rplay_unpack

  /** rplay_unpack. */
  method RplayUnpack(packet: Bytes) returns (r: Result<Rplay>)
    ensures r == Unpack(packet)
  {
    if |packet| < 2 { return Overrun; }
    if !IsCommand(packet[1]) { return BadCommand; }
    r := ParseAll(packet, Create(packet[1]));
  }

  method ParseAll(packet: Bytes, created: Rplay) returns (r: Result<Rplay>)
    requires |packet| >= 2
    ensures r == Parse(Progress(created, DEFAULT_ATTRS), packet[2..])
  {
    hide Step;
    ghost var result := Parse(Progress(created, DEFAULT_ATTRS), packet[2..]);
    var p := Progress(created, DEFAULT_ATTRS);
    var at := 2;
    r := Overrun;
    var stillGoing := true;
    while stillGoing && at < |packet|
      invariant 2 <= at <= |packet|
      invariant stillGoing ==> Parse(p, packet[at..]) == result && r == Overrun
      invariant !stillGoing ==> r == result
      decreases stillGoing, |packet| - at
    {
      ParseUnfolds(p, packet, at);
      var o := Switch(packet, at, p.rp, p.cur);
      if o.More? {
        p, at := o.p, at + o.used;
      } else {
        r := if o.Done? then Ok(o.rp) else o.error;
        stillGoing := false;
      }
    }
    if stillGoing {
      assert packet[at..] == [];
      assert Parse(p, []) == Overrun;
    }
  }

  /** One pass of the loop, at position `at`. */
  lemma ParseUnfolds(p: Progress, packet: Bytes, at: nat)
    requires at < |packet|
    ensures var o := Step(p, packet[at..]);
            && (o.More? ==> at + 1 <= at + o.used <= |packet| && Parse(p, packet[at..]) == Parse(o.p, packet[at + o.used..]))
            && (o.Done? ==> Parse(p, packet[at..]) == Ok(o.rp))
            && (o.Fail? ==> Parse(p, packet[at..]) == o.error)
  {
    hide Step;
    var o := Step(p, packet[at..]);
    if o.More? {
      assert packet[at..][o.used..] == packet[at + o.used..];
    }
  }

  /** The switch. */
  method Switch(packet: Bytes, at: nat, rp0: Rplay, cur0: Attrs) returns (o: Outcome)
    requires at < |packet|
    ensures o == Step(Progress(rp0, cur0), packet[at..])
  {
    var rp, cur := rp0, cur0;
    var tag := packet[at];
    var b := packet[at + 1..];
    assert packet[at..][1..] == b;
    if tag == LIST_COUNT || tag == PRIORITY || tag == VOLUME || tag == LEFT_VOLUME || tag == RIGHT_VOLUME || tag == COUNT
       || tag == RPTP_SEARCH {
      if b == [] { return Fail(Overrun); }
      if tag == LIST_COUNT {
        rp := rp.(count := b[0]);
      } else if tag == PRIORITY {
        rp := rp.(priority := b[0]);
      } else if tag == VOLUME {
        cur := cur.(left := b[0]);
        cur := cur.(right := cur.left);
      } else if tag == LEFT_VOLUME {
        cur := cur.(left := b[0]);
      } else if tag == RIGHT_VOLUME {
        cur := cur.(right := b[0]);
      } else if tag == COUNT {
        cur := cur.(count := b[0]);
      } else {
        cur := cur.(search := b[0]);
      }
      return More(Progress(rp, cur), 2);
    } else if tag == LIST_NAME || tag == SOUND || tag == RPTP_SERVER || tag == CLIENT_DATA {
      var s := CString(b);
      if s.None? { return Fail(Overrun); }
      if tag == LIST_NAME {
        rp := rp.(listName := s.value);
      } else if tag == SOUND {
        cur := cur.(sound := s.value);
      } else if tag == RPTP_SERVER {
        cur := cur.(server := Some(s.value));
      } else {
        cur := cur.(clientData := s.value);
      }
      return More(Progress(rp, cur), |s.value| + 2);
    }
    o := SwitchNumbers(packet, at, rp, cur);
  }

  /** The cases that read more than one byte without a NUL, and RPLAY_NULL. */
  method SwitchNumbers(packet: Bytes, at: nat, rp0: Rplay, cur0: Attrs) returns (o: Outcome)
    requires at < |packet| && !IsByteTag(packet[at]) && !IsStringTag(packet[at])
    ensures o == Step(Progress(rp0, cur0), packet[at..])
  {
    hide FromBe16, FromBe32;
    var rp, cur := rp0, cur0;
    var tag := packet[at];
    var b := packet[at + 1..];
    assert packet[at..][1..] == b;
    if tag == RPTP_SERVER_PORT || tag == DATA_SIZE {
      if |b| < 2 { return Fail(Overrun); }
      if tag == DATA_SIZE {
        rp := rp.(dataSize := FromBe16(b));
      } else {
        cur := cur.(port := FromBe16(b));
      }
      return More(Progress(rp, cur), 3);
    } else if tag == SAMPLE_RATE || tag == ID || tag == SEQUENCE {
      if |b| < 4 { return Fail(Overrun); }
      if tag == SAMPLE_RATE {
        cur := cur.(sampleRate := FromBe32(b));
      } else if tag == ID {
        rp := rp.(id := ToInt(FromBe32(b)));
      } else {
        rp := rp.(sequence := FromBe32(b));
      }
      return More(Progress(rp, cur), 5);
    } else if tag == DATA {
      if rp.dataSize < 0 || |b| < rp.dataSize { return Fail(Overrun); }
      rp := rp.(data := b[..rp.dataSize]);
      return More(Progress(rp, cur), 1 + rp.dataSize);
    } else if tag == NULL {
      rp := rp.(attrs := rp.attrs + [cur]);
      if b == [] { return Fail(Overrun); }
      if b[0] == NULL { return Done(rp); }
      return More(Progress(rp, DEFAULT_ATTRS), 1);
    }
    return Fail(BadAttribute);
  }
}
