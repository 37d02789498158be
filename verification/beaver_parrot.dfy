/*
 * The Parrot "Dragon" user-data SEI payloads (src/beaver_parrot.c): a
 * classifier that looks at the 16-byte UUID, and four deserialisers that
 * read the payload as consecutive big-endian 32-bit words. Each of the four
 * record layouts is a table of its fields in declaration order; a field is
 * unsigned, or signed (the two's-complement reading of the same word). The
 * two Extended layouts end with two 10-byte serial-number strings.
 *
 * A buffer is a byte sequence (its length is the bufSize argument) or NULL.
 */
module BeaverParrot {
  import opened CInt

  const UNKNOWN_USER_DATA_SEI := 0
  const DRAGON_BASIC_USER_DATA_SEI_V1 := 1
  const DRAGON_EXTENDED_USER_DATA_SEI_V1 := 2
  const DRAGON_BASIC_USER_DATA_SEI_V2 := 3
  const DRAGON_EXTENDED_USER_DATA_SEI_V2 := 4

  /** One of the four recognised payload types. */
  predicate IsSeiType(t: int) { 1 <= t <= 4 }

  const SERIAL_NUMBER_PART_LENGTH := 9
  const SERIAL_PART_SIZE := SERIAL_NUMBER_PART_LENGTH + 1

  const BASIC_V1_UUID: seq<u32> := [0x8818b6d5, 0x4aff45ad, 0xba04bc0c, 0xbae6a5fd]
  const BASIC_V2_UUID: seq<u32> := [0xf1433a75, 0xe4914bf5, 0xaadf455d, 0xdf6ac0a8]
  const EXTENDED_V1_UUID: seq<u32> := [0x5aace927, 0x933f41ff, 0xb863af7e, 0x617532cf]
  const EXTENDED_V2_UUID: seq<u32> := [0x937a509b, 0x2f234df6, 0x8be33305, 0x69d3b5bb]

  function Uuid(t: int): (r: seq<u32>)
    requires IsSeiType(t)
    ensures |r| == 4
  {
    if t == DRAGON_BASIC_USER_DATA_SEI_V1 then BASIC_V1_UUID
    else if t == DRAGON_EXTENDED_USER_DATA_SEI_V1 then EXTENDED_V1_UUID
    else if t == DRAGON_BASIC_USER_DATA_SEI_V2 then BASIC_V2_UUID
    else EXTENDED_V2_UUID
  }

  datatype FieldKind = Unsigned | Signed
  type Layout = seq<(string, FieldKind)>

  const BASIC_V1_FIELDS: Layout := [
    ("frameIndex", Unsigned), ("acquisitionTsH", Unsigned), ("acquisitionTsL", Unsigned),
    ("prevMse_fp8", Unsigned)]

  const BASIC_V2_FIELDS: Layout := [
    ("frameIndex", Unsigned), ("acquisitionTsH", Unsigned), ("acquisitionTsL", Unsigned)]

  const EXTENDED_V1_FIELDS: Layout := [
    ("frameIndex", Unsigned), ("acquisitionTsH", Unsigned), ("acquisitionTsL", Unsigned),
    ("prevMse_fp8", Unsigned), ("batteryPercentage", Unsigned),
    ("latitude_fp20", Signed), ("longitude_fp20", Signed), ("altitude_fp16", Signed),
    ("absoluteHeight_fp16", Signed), ("relativeHeight_fp16", Signed),
    ("xSpeed_fp16", Signed), ("ySpeed_fp16", Signed), ("zSpeed_fp16", Signed),
    ("distance_fp16", Unsigned),
    ("heading_fp16", Signed), ("yaw_fp16", Signed), ("pitch_fp16", Signed), ("roll_fp16", Signed),
    ("cameraPan_fp16", Signed), ("cameraTilt_fp16", Signed),
    ("videoStreamingTargetBitrate", Unsigned),
    ("wifiRssi", Signed),
    ("wifiMcsRate", Unsigned), ("wifiTxRate", Unsigned), ("wifiRxRate", Unsigned),
    ("wifiTxFailRate", Unsigned), ("wifiTxErrorRate", Unsigned),
    ("postReprojTimestampDelta", Unsigned), ("postEeTimestampDelta", Unsigned),
    ("postScalingTimestampDelta", Unsigned), ("postStreamingEncodingTimestampDelta", Unsigned),
    ("postNetworkInputTimestampDelta", Unsigned),
    ("systemTsH", Unsigned), ("systemTsL", Unsigned)]

  const EXTENDED_V2_FIELDS: Layout := [
    ("frameIndex", Unsigned), ("acquisitionTsH", Unsigned), ("acquisitionTsL", Unsigned),
    ("batteryPercentage", Unsigned),
    ("latitude_fp20", Signed), ("longitude_fp20", Signed), ("altitude_fp16", Signed),
    ("absoluteHeight_fp16", Signed), ("relativeHeight_fp16", Signed),
    ("xSpeed_fp16", Signed), ("ySpeed_fp16", Signed), ("zSpeed_fp16", Signed),
    ("distance_fp16", Unsigned),
    ("yaw_fp16", Signed), ("pitch_fp16", Signed), ("roll_fp16", Signed),
    ("cameraPan_fp16", Signed), ("cameraTilt_fp16", Signed),
    ("videoStreamingTargetBitrate", Unsigned), ("videoStreamingDecimation", Unsigned),
    ("videoStreamingGopLength", Unsigned), ("videoStreamingPrevFrameType", Signed),
    ("videoStreamingPrevFrameSize", Unsigned), ("videoStreamingPrevFrameMseY_fp8", Unsigned),
    ("videoRecordingPrevFrameType", Signed), ("videoRecordingPrevFrameSize", Unsigned),
    ("videoRecordingPrevFrameMseY_fp8", Unsigned),
    ("wifiRssi", Signed),
    ("wifiMcsRate", Unsigned), ("wifiTxRate", Unsigned), ("wifiRxRate", Unsigned),
    ("wifiTxFailRate", Unsigned), ("wifiTxErrorRate", Unsigned),
    ("preReprojTimestampDelta", Unsigned), ("postReprojTimestampDelta", Unsigned),
    ("postEeTimestampDelta", Unsigned), ("postScalingTimestampDelta", Unsigned),
    ("postStreamingEncodingTimestampDelta", Unsigned),
    ("postRecordingEncodingTimestampDelta", Unsigned),
    ("postNetworkInputTimestampDelta", Unsigned),
    ("systemTsH", Unsigned), ("systemTsL", Unsigned),
    ("streamingMonitorTimeInterval", Unsigned), ("streamingMeanAcqToNetworkTime", Unsigned),
    ("streamingAcqToNetworkJitter", Unsigned), ("streamingMeanNetworkTime", Unsigned),
    ("streamingNetworkJitter", Unsigned), ("streamingBytesSent", Unsigned),
    ("streamingMeanPacketSize", Unsigned), ("streamingPacketSizeStdDev", Unsigned),
    ("streamingPacketsSent", Unsigned), ("streamingBytesDropped", Unsigned),
    ("streamingNaluDropped", Unsigned)]

  function Fields(t: int): (r: Layout)
    requires IsSeiType(t)
    ensures |r| >= 3
  {
    if t == DRAGON_BASIC_USER_DATA_SEI_V1 then BASIC_V1_FIELDS
    else if t == DRAGON_EXTENDED_USER_DATA_SEI_V1 then EXTENDED_V1_FIELDS
    else if t == DRAGON_BASIC_USER_DATA_SEI_V2 then BASIC_V2_FIELDS
    else EXTENDED_V2_FIELDS
  }

  /** The Extended layouts end with the two serial-number parts. */
  predicate HasSerialNumber(t: int) {
    t == DRAGON_EXTENDED_USER_DATA_SEI_V1 || t == DRAGON_EXTENDED_USER_DATA_SEI_V2
  }

  /** sizeof of the record: UUID, the 32-bit fields, then the serial parts. */
  function RecordSize(t: int): (r: nat)
    requires IsSeiType(t)
    ensures r == 16 + 4 * |Fields(t)| + (if HasSerialNumber(t) then 2 * SERIAL_PART_SIZE else 0)
    ensures r >= 28
  {
    if t == DRAGON_BASIC_USER_DATA_SEI_V1 then 32
    else if t == DRAGON_EXTENDED_USER_DATA_SEI_V1 then 172
    else if t == DRAGON_BASIC_USER_DATA_SEI_V2 then 28
    else 248
  }

  /** A deserialised payload. Signed fields hold their signed value. */
  datatype UserDataSei = UserDataSei(
    uuid: seq<u32>, fields: seq<int>, serialNumberH: seq<byte>, serialNumberL: seq<byte>)

  // ---------------------------------------------------------------------------
  // Reading words and strings

  lemma FromBE4(s: seq<byte>)
    requires |s| == 4
    ensures FromBE(s) == s[0] as int * 0x100_0000 + s[1] as int * 0x1_0000 + s[2] as int * 0x100 + s[3] as int
  {
    assert s[..3][..2][..1][..0] == [] && s[..3][..2][..1] == [s[0]];
    assert s[..3][..2] == [s[0], s[1]] && s[..3] == [s[0], s[1], s[2]];
    assert FromBE(s[..3][..2][..1]) == s[0];
    assert FromBE(s[..3][..2]) == s[0] as int * 0x100 + s[1] as int;
    assert FromBE(s[..3]) == s[0] as int * 0x1_0000 + s[1] as int * 0x100 + s[2] as int;
  }

  /** ntohl of the k-th 32-bit word of the buffer. */
  function Word(buf: seq<byte>, k: nat): (r: u32)
    requires 4 * k + 4 <= |buf|
    ensures r == FromBE(buf[4 * k .. 4 * k + 4])
  {
    FromBE4(buf[4 * k .. 4 * k + 4]);
    FromBE(buf[4 * k .. 4 * k + 4])
  }

  /** The value a field of the given kind takes from its word. */
  function FieldValue(kind: FieldKind, w: u32): int
  {
    if kind == Signed then I32(w) else w
  }

  /** Whether a value fits a field of the given kind. */
  predicate FitsField(kind: FieldKind, v: int)
  {
    if kind == Signed then -0x8000_0000 <= v < 0x8000_0000 else IsU32(v)
  }

  /** The first four words, compared against the UUID constants. */
  function UuidWords(buf: seq<byte>): (r: seq<u32>)
    requires |buf| >= 16
    ensures |r| == 4 && forall k :: 0 <= k < 4 ==> r[k] == Word(buf, k)
  {
    [Word(buf, 0), Word(buf, 1), Word(buf, 2), Word(buf, 3)]
  }

  /** Whether a NUL occurs in s at or before position i. */
  predicate NulBefore(s: seq<byte>, i: int)
  {
    exists j :: 0 <= j <= i && j < |s| && s[j] == 0
  }

  /**
   * strncpy of n bytes: the characters up to the first NUL are copied and the
   * rest of the destination is filled with NUL.
   */
  function StrNCopy(src: seq<byte>, n: nat): (r: seq<byte>)
    requires |src| >= n
    ensures |r| == n
    ensures forall i :: 0 <= i < n ==> r[i] == (if NulBefore(src, i) then 0 else src[i])
  {
    if n == 0 then []
    else if src[0] == 0 then
      NulFirst(src, n);
      seq(n, _ => 0)
    else
      var rest := StrNCopy(src[1..], n - 1);
      NulShift(src, n);
      [src[0]] + rest
  }

  /** A string that starts with NUL has a NUL before every position. */
  lemma NulFirst(src: seq<byte>, n: nat)
    requires |src| > 0 && src[0] == 0
    ensures forall i :: 0 <= i < n ==> NulBefore(src, i)
  {
    forall i | 0 <= i < n ensures NulBefore(src, i) {
      assert src[0] == 0;
    }
  }

  /** Past a first character that is not NUL, a NUL comes before i exactly when the tail has one before i - 1. */
  lemma NulShift(src: seq<byte>, n: nat)
    requires |src| > 0 && src[0] != 0
    ensures !NulBefore(src, 0)
    ensures forall i :: 0 < i < n ==> (NulBefore(src, i) <==> NulBefore(src[1..], i - 1))
  {
    forall i | 0 < i < n ensures NulBefore(src, i) <==> NulBefore(src[1..], i - 1) {
      if NulBefore(src[1..], i - 1) {
        var j :| 0 <= j <= i - 1 && j < |src[1..]| && src[1..][j] == 0;
        assert src[j + 1] == 0;
      }
      if NulBefore(src, i) {
        var j :| 0 <= j <= i && j < |src| && src[j] == 0;
        assert src[1..][j - 1] == 0;
      }
    }
  }

  /** A string already in strncpy form: nothing but NUL after the first NUL. */
  predicate Padded(s: seq<byte>)
  {
    |s| == SERIAL_PART_SIZE && StrNCopy(s, SERIAL_PART_SIZE) == s
  }

  /** Copying a copied string changes nothing. */
  lemma StrNCopyPadded(src: seq<byte>)
    requires |src| >= SERIAL_PART_SIZE
    ensures Padded(StrNCopy(src, SERIAL_PART_SIZE))
  {
    var r := StrNCopy(src, SERIAL_PART_SIZE);
    var rr := StrNCopy(r, SERIAL_PART_SIZE);
    forall i | 0 <= i < SERIAL_PART_SIZE ensures rr[i] == r[i] {
      if NulBefore(r, i) {
        var j :| 0 <= j <= i && j < |r| && r[j] == 0;
        assert NulBefore(src, j);
        var j' :| 0 <= j' <= j && j' < |src| && src[j'] == 0;
        assert NulBefore(src, i);
      }
    }
    assert rr == r;
  }

  // ---------------------------------------------------------------------------
  // Classifier and deserialisers

  /**
   * BEAVER_Parrot_GetUserDataSeiType: -1 for NULL or fewer than 16 bytes;
   * otherwise the type whose UUID the first four words carry, checked in the
   * order Basic v2, Extended v2, Basic v1, Extended v1; else UNKNOWN.
   */
  function GetUserDataSeiType(buf: Option<seq<byte>>): (r: int)
    ensures r == -1 <==> buf.None? || |buf.value| < 16
    ensures IsSeiType(r) ==> UuidWords(buf.value) == Uuid(r)
    ensures r == UNKNOWN_USER_DATA_SEI <==>
      buf.Some? && |buf.value| >= 16 &&
      forall t :: IsSeiType(t) ==> UuidWords(buf.value) != Uuid(t)
    ensures -1 <= r <= 4
  {
    if buf.None? || |buf.value| < 16 then -1
    else
      var u := UuidWords(buf.value);
      if u == BASIC_V2_UUID then DRAGON_BASIC_USER_DATA_SEI_V2
      else if u == EXTENDED_V2_UUID then DRAGON_EXTENDED_USER_DATA_SEI_V2
      else if u == BASIC_V1_UUID then DRAGON_BASIC_USER_DATA_SEI_V1
      else if u == EXTENDED_V1_UUID then DRAGON_EXTENDED_USER_DATA_SEI_V1
      else UNKNOWN_USER_DATA_SEI
  }

  /** The fields of layout `layout`, read from word `first` on. */
  function ReadFields(buf: seq<byte>, layout: Layout, first: nat): (r: seq<int>)
    requires 4 * (first + |layout|) <= |buf|
    ensures |r| == |layout|
    ensures forall i :: 0 <= i < |layout| ==>
      r[i] == FieldValue(layout[i].1, Word(buf, first + i))
    decreases |layout|
  {
    if layout == [] then []
    else [FieldValue(layout[0].1, Word(buf, first))] + ReadFields(buf, layout[1..], first + 1)
  }

  /** A serial-number part: strncpy of the 10 bytes at offset `at`. */
  function SerialPart(b: seq<byte>, at: nat): (r: seq<byte>)
    requires at + SERIAL_PART_SIZE <= |b|
    ensures r == StrNCopy(b[at..], SERIAL_PART_SIZE)
  {
    StrNCopy(b[at..], SERIAL_PART_SIZE)
  }

  /** What a deserialiser knows of its record type: UUID, fields, serial parts. */
  datatype Format = Format(uuid: seq<u32>, layout: Layout, hasSerialNumber: bool)

  function FormatOf(t: int): (f: Format)
    requires IsSeiType(t)
    ensures f.uuid == Uuid(t) && f.layout == Fields(t) && f.hasSerialNumber == HasSerialNumber(t)
    ensures FormatSize(f) == RecordSize(t)
  {
    Format(Uuid(t), Fields(t), HasSerialNumber(t))
  }

  function FormatSize(f: Format): nat
  {
    16 + 4 * |f.layout| + (if f.hasSerialNumber then 2 * SERIAL_PART_SIZE else 0)
  }

  /**
   * The four BEAVER_Parrot_ParseDragon*UserDataSei* functions, type t's being
   * ParseUserDataSei(FormatOf(t), _): None (-1) for NULL, a buffer shorter
   * than the record, or a UUID other than the type's; otherwise the fields as
   * consecutive words after the UUID and, for the Extended types, the two
   * serial parts copied with strncpy right after the last word.
   */
  function ParseUserDataSei(f: Format, buf: Option<seq<byte>>): (r: Option<UserDataSei>)
    requires |f.uuid| == 4
    ensures r.Some? <==>
      buf.Some? && |buf.value| >= FormatSize(f) && UuidWords(buf.value) == f.uuid
    ensures r.Some? ==>
      var b, n := buf.value, |f.layout|;
      r.value.uuid == f.uuid &&
      |r.value.fields| == n &&
      (forall i :: 0 <= i < n ==> r.value.fields[i] == FieldValue(f.layout[i].1, Word(b, 4 + i))) &&
      (f.hasSerialNumber ==>
        r.value.serialNumberH == SerialPart(b, 16 + 4 * n) &&
        r.value.serialNumberL == SerialPart(b, 16 + 4 * n + SERIAL_PART_SIZE)) &&
      (!f.hasSerialNumber ==> r.value.serialNumberH == [] && r.value.serialNumberL == [])
  {
    if buf.None? || |buf.value| < FormatSize(f) then None
    else
      var b := buf.value;
      var u := UuidWords(b);
      if u != f.uuid then None
      else
        var fields := ReadFields(b, f.layout, 4);
        if f.hasSerialNumber then
          Some(UserDataSei(u, fields, SerialPart(b, 16 + 4 * |f.layout|),
            SerialPart(b, 16 + 4 * |f.layout| + SERIAL_PART_SIZE)))
        else
          Some(UserDataSei(u, fields, [], []))
  }

  // ---------------------------------------------------------------------------
  // Properties

  /** The four UUIDs are pairwise different, so the check order is immaterial. */
  lemma UuidsDistinct(s: int, t: int)
    requires IsSeiType(s) && IsSeiType(t) && s != t
    ensures Uuid(s) != Uuid(t)
  {
    assert Uuid(s)[0] != Uuid(t)[0];
  }

  /** A buffer carrying type t's UUID is classified as t. */
  lemma UuidClassifies(t: int, b: seq<byte>)
    requires IsSeiType(t) && |b| >= 16 && UuidWords(b) == Uuid(t)
    ensures GetUserDataSeiType(Some(b)) == t
  {
    var r := GetUserDataSeiType(Some(b));
    if r != t && IsSeiType(r) {
      UuidsDistinct(r, t);
    }
  }

  /**
   * Classifier and parsers agree: type t's parser accepts a buffer exactly
   * when the classifier names t and the buffer holds t's whole record.
   */
  lemma ClassifiedIsParsed(t: int, buf: Option<seq<byte>>)
    requires IsSeiType(t)
    ensures ParseUserDataSei(FormatOf(t), buf).Some? <==>
      GetUserDataSeiType(buf) == t && |buf.value| >= RecordSize(t)
  {
    if buf.Some? && |buf.value| >= 16 && UuidWords(buf.value) == Uuid(t) {
      UuidClassifies(t, buf.value);
    }
  }

  /** A record that serialises: the format's UUID, fitting fields, padded serials. */
  predicate WellFormed(f: Format, s: UserDataSei)
  {
    s.uuid == f.uuid && |s.uuid| == 4 &&
    |s.fields| == |f.layout| &&
    (forall i :: 0 <= i < |s.fields| ==> FitsField(f.layout[i].1, s.fields[i])) &&
    (if f.hasSerialNumber then Padded(s.serialNumberH) && Padded(s.serialNumberL)
     else s.serialNumberH == [] && s.serialNumberL == [])
  }

  /** The 32-bit word that holds a field value (htonl of its bit pattern). */
  function FieldWord(kind: FieldKind, v: int): (w: u32)
    requires FitsField(kind, v)
    ensures FieldValue(kind, w) == v
  {
    if kind == Signed then
      if v >= 0 then v else v + TWO_32
    else v
  }

  /** Consecutive big-endian words. */
  function WordsBE(ws: seq<u32>): (r: seq<byte>)
    ensures |r| == 4 * |ws|
  {
    if ws == [] then [] else BE32(ws[0]) + WordsBE(ws[1..])
  }

  lemma {:induction false} WordsBEWord(ws: seq<u32>, tail: seq<byte>, k: nat)
    requires k < |ws|
    ensures Word(WordsBE(ws) + tail, k) == ws[k]
    decreases k
  {
    var b := WordsBE(ws) + tail;
    if k == 0 {
      assert b[0..4] == BE32(ws[0]);
    } else {
      var b' := WordsBE(ws[1..]) + tail;
      assert b == BE32(ws[0]) + b';
      assert b[4 * k .. 4 * k + 4] == b'[4 * (k - 1) .. 4 * (k - 1) + 4];
      WordsBEWord(ws[1..], tail, k - 1);
    }
  }

  function FieldWords(layout: Layout, values: seq<int>): (r: seq<u32>)
    requires |values| == |layout|
    requires forall i :: 0 <= i < |values| ==> FitsField(layout[i].1, values[i])
    ensures |r| == |layout|
    ensures forall i :: 0 <= i < |r| ==> r[i] == FieldWord(layout[i].1, values[i])
    decreases |layout|
  {
    if layout == [] then []
    else [FieldWord(layout[0].1, values[0])] + FieldWords(layout[1..], values[1..])
  }

  /** The bytes a sender puts in the payload for a record of format f. */
  function Serialize(f: Format, s: UserDataSei): (r: seq<byte>)
    requires WellFormed(f, s)
    ensures |r| == FormatSize(f)
  {
    WordsBE(s.uuid + FieldWords(f.layout, s.fields)) + (s.serialNumberH + s.serialNumberL)
  }

  lemma NulBeforePrefix(a: seq<byte>, b: seq<byte>, n: nat, i: nat)
    requires i < n <= |a| && n <= |b| && a[..n] == b[..n]
    ensures NulBefore(a, i) == NulBefore(b, i)
  {
    if NulBefore(a, i) {
      var j :| 0 <= j <= i && j < |a| && a[j] == 0;
      assert b[j] == a[..n][j];
    }
    if NulBefore(b, i) {
      var j :| 0 <= j <= i && j < |b| && b[j] == 0;
      assert a[j] == b[..n][j];
    }
  }

  /** strncpy only looks at the first n bytes of its source. */
  lemma StrNCopyPrefix(a: seq<byte>, b: seq<byte>, n: nat)
    requires |a| >= n && |b| >= n && a[..n] == b[..n]
    ensures StrNCopy(a, n) == StrNCopy(b, n)
  {
    var ra, rb := StrNCopy(a, n), StrNCopy(b, n);
    forall i | 0 <= i < n ensures ra[i] == rb[i] {
      assert a[i] == a[..n][i] && b[i] == b[..n][i];
      NulBeforePrefix(a, b, n, i);
    }
  }

  /** Deserialising a serialised record gives the record back. */
  lemma {:induction false} ParseSerialize(f: Format, s: UserDataSei)
    requires |f.uuid| == 4 && WellFormed(f, s)
    ensures ParseUserDataSei(f, Some(Serialize(f, s))) == Some(s)
  {
    var n := |f.layout|;
    var ws := s.uuid + FieldWords(f.layout, s.fields);
    var tail := s.serialNumberH + s.serialNumberL;
    var b := Serialize(f, s);
    forall k | 0 <= k < 4 + n ensures Word(b, k) == ws[k] {
      WordsBEWord(ws, tail, k);
    }
    assert UuidWords(b) == s.uuid;
    var r := ParseUserDataSei(f, Some(b));
    forall i | 0 <= i < n ensures r.value.fields[i] == s.fields[i] {
      assert Word(b, 4 + i) == ws[4 + i];
    }
    assert r.value.fields == s.fields;
    if f.hasSerialNumber {
      assert b[16 + 4 * n..] == tail;
      assert tail[..SERIAL_PART_SIZE] == s.serialNumberH[..SERIAL_PART_SIZE];
      StrNCopyPrefix(tail, s.serialNumberH, SERIAL_PART_SIZE);
      assert r.value.serialNumberH == s.serialNumberH;
      assert b[16 + 4 * n + SERIAL_PART_SIZE..] == s.serialNumberL;
      assert r.value.serialNumberL == s.serialNumberL;
    }
    assert r.value == s;
  }

  /** A serialised record of type t is classified as t. */
  lemma SerializedIsClassified(t: int, s: UserDataSei)
    requires IsSeiType(t) && WellFormed(FormatOf(t), s)
    ensures GetUserDataSeiType(Some(Serialize(FormatOf(t), s))) == t
  {
    var f := FormatOf(t);
    ParseSerialize(f, s);
    UuidClassifies(t, Serialize(f, s));
  }

  /** Every record a parser produces is well formed, so it can be re-sent. */
  lemma {:induction false} ParsedIsWellFormed(f: Format, buf: Option<seq<byte>>)
    requires |f.uuid| == 4 && ParseUserDataSei(f, buf).Some?
    ensures WellFormed(f, ParseUserDataSei(f, buf).value)
  {
    var s := ParseUserDataSei(f, buf).value;
    var b := buf.value;
    var n := |f.layout|;
    forall i | 0 <= i < n ensures FitsField(f.layout[i].1, s.fields[i]) {
      assert s.fields[i] == FieldValue(f.layout[i].1, Word(b, 4 + i));
    }
    if f.hasSerialNumber {
      StrNCopyPadded(b[16 + 4 * n..]);
      StrNCopyPadded(b[16 + 4 * n + SERIAL_PART_SIZE..]);
    }
  }
}
