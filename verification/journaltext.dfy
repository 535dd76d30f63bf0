/** The text of the enrollment journal and the reader that classifies it. */
module JournalText {
  import opened Wrappers
  import opened Bytes
  import opened Descriptors

  const NEWLINE: U8 := 10
  const JOURNAL_LIMIT: nat := 65_536
  const LINE_LIMIT: nat := 8192

  // ----- hexadecimal -----

  function HexChar(n: nat): char
    requires n < 16
  {
    "0123456789abcdef"[n]
  }

  function DigitValue(ch: char): (value: Option<nat>)
    ensures value.Some? ==> value.value < 16
  {
    if '0' <= ch <= '9' then Some(ch as nat - '0' as nat)
    else if 'a' <= ch <= 'f' then Some(ch as nat - 'a' as nat + 10)
    else None
  }

  lemma DigitRoundTrip(n: nat, ch: char)
    requires n < 16
    ensures DigitValue(ch) == Some(n) <==> ch == HexChar(n)
    ensures HexChar(n) != '-'
  {}

  function Hex(bytes: Bytes): (text: string)
    ensures |text| == 2 * |bytes|
  {
    if bytes == [] then "" else [HexChar(bytes[0] / 16), HexChar(bytes[0] % 16)] + Hex(bytes[1..])
  }

  predicate HexText(text: string) { forall i :: 0 <= i < |text| ==> DigitValue(text[i]).Some? }

  function ByteOf(high: char, low: char): U8
    requires DigitValue(high).Some? && DigitValue(low).Some?
  {
    DigitValue(high).value * 16 + DigitValue(low).value
  }

  function Unhex(text: string): (bytes: Bytes)
    requires |text| % 2 == 0 && HexText(text)
    ensures 2 * |bytes| == |text|
  {
    if text == [] then [] else [ByteOf(text[0], text[1])] + Unhex(text[2..])
  }

  /** Exactly n bytes in lower-case hexadecimal. */
  function Unhexed(n: nat, text: string): Option<Bytes> {
    if |text| == 2 * n && HexText(text) then Some(Unhex(text)) else None
  }

  lemma ByteRoundTrip(b: U8)
    ensures DigitValue(HexChar(b / 16)).Some? && DigitValue(HexChar(b % 16)).Some?
    ensures ByteOf(HexChar(b / 16), HexChar(b % 16)) == b
  {
    DigitRoundTrip(b / 16, HexChar(b / 16));
    DigitRoundTrip(b % 16, HexChar(b % 16));
    hide HexChar, DigitValue;
  }

  lemma CharRoundTrip(high: char, low: char)
    requires DigitValue(high).Some? && DigitValue(low).Some?
    ensures HexChar(ByteOf(high, low) / 16) == high && HexChar(ByteOf(high, low) % 16) == low
  {
    hide HexChar, DigitValue;
    var h, l := DigitValue(high).value, DigitValue(low).value;
    DigitRoundTrip(h, high);
    DigitRoundTrip(l, low);
    NibbleSplit(h, l);
  }

  lemma NibbleSplit(h: nat, l: nat)
    requires h < 16 && l < 16
    ensures (h * 16 + l) / 16 == h && (h * 16 + l) % 16 == l
  {}

  lemma {:induction false} HexDigits(bytes: Bytes)
    ensures HexText(Hex(bytes)) && Unhex(Hex(bytes)) == bytes && forall i :: 0 <= i < |Hex(bytes)| ==> Hex(bytes)[i] != '-'
  {
    hide HexChar, DigitValue, ByteOf;
    if bytes != [] {
      HexDigits(bytes[1..]);
      ByteRoundTrip(bytes[0]);
      DigitRoundTrip(bytes[0] / 16, HexChar(bytes[0] / 16));
      DigitRoundTrip(bytes[0] % 16, HexChar(bytes[0] % 16));
      assert Hex(bytes)[2..] == Hex(bytes[1..]);
    }
  }

  lemma {:induction false} UnhexText(text: string)
    requires |text| % 2 == 0 && HexText(text)
    ensures Hex(Unhex(text)) == text
  {
    hide HexChar, DigitValue, ByteOf;
    if text != [] {
      UnhexText(text[2..]);
      CharRoundTrip(text[0], text[1]);
      assert text == [text[0], text[1]] + text[2..];
    }
  }

  /** The decoder accepts exactly the texts of n bytes. */
  lemma UnhexedExact(n: nat, text: string, bytes: Bytes)
    ensures Unhexed(n, text) == Some(bytes) <==> |bytes| == n && text == Hex(bytes)
  {
    hide Hex, Unhex, HexText;
    if |text| == 2 * n && HexText(text) {
      UnhexText(text);
    }
    HexDigits(bytes);
  }

  lemma EmptyHex(text: string)
    requires text == []
    ensures HexText(text) && Unhex(text) == []
  {}

  lemma UnhexStep(text: string, i: nat)
    requires |text| % 2 == 0 && HexText(text) && 2 * i < |text|
    ensures HexText(text[2 * i..]) && HexText(text[2 * (i + 1)..])
    ensures Unhex(text[2 * i..]) == [ByteOf(text[2 * i], text[2 * i + 1])] + Unhex(text[2 * (i + 1)..])
  {
    hide DigitValue, ByteOf;
    assert text[2 * i..][2..] == text[2 * (i + 1)..];
  }

  method LowerHex(n: nat, value: string) returns (bytes: Option<Bytes>)
    ensures bytes == Unhexed(n, value)
  {
    hide DigitValue, ByteOf, Unhex;
    if |value| != 2 * n || exists i :: 0 <= i < |value| && DigitValue(value[i]).None? {
      return None;
    }
    var decoded := [];
    var i := 0;
    assert value[0..] == value;
    while i < n
      invariant 0 <= i <= n && |decoded| == i && HexText(value[2 * i..])
      invariant decoded + Unhex(value[2 * i..]) == Unhex(value)
    {
      UnhexStep(value, i);
      decoded := decoded + [ByteOf(value[2 * i], value[2 * i + 1])];
      i := i + 1;
    }
    EmptyHex(value[2 * n..]);
    assert decoded + [] == decoded;
    bytes := Some(decoded);
  }

  // ----- volume identifiers -----

  /** The hyphenated form: 8, 4, 4, 4 and 12 digits. */
  function UuidText(volume: Bytes16): string {
    Hex(volume[..4]) + "-" + Hex(volume[4..6]) + "-" + Hex(volume[6..8]) + "-" + Hex(volume[8..10]) + "-" + Hex(volume[10..])
  }

  function WithoutDashes(text: string): string {
    if text == [] then "" else (if text[0] == '-' then "" else [text[0]]) + WithoutDashes(text[1..])
  }

  lemma {:induction false} DashesConcat(a: string, b: string)
    ensures WithoutDashes(a + b) == WithoutDashes(a) + WithoutDashes(b)
  {
    if a == [] {
      assert a + b == b;
    } else {
      assert (a + b)[1..] == a[1..] + b;
      DashesConcat(a[1..], b);
    }
  }

  lemma {:induction false} NoDashes(text: string)
    requires forall i :: 0 <= i < |text| ==> text[i] != '-'
    ensures WithoutDashes(text) == text
  {
    if text != [] {
      NoDashes(text[1..]);
    }
  }

  lemma {:induction false} HexConcat(a: Bytes, b: Bytes)
    ensures Hex(a + b) == Hex(a) + Hex(b)
  {
    hide HexChar;
    if a == [] {
      assert a + b == b;
    } else {
      assert (a + b)[1..] == a[1..] + b;
      HexConcat(a[1..], b);
    }
  }

  /** A group of digits and a hyphen. */
  lemma GroupDashes(group: Bytes, rest: string)
    ensures WithoutDashes(Hex(group) + ("-" + rest)) == Hex(group) + WithoutDashes(rest)
  {
    hide Hex;
    HexDigits(group);
    NoDashes(Hex(group));
    DashesConcat(Hex(group), "-" + rest);
    DashesConcat("-", rest);
    assert WithoutDashes("-") == "";
  }

  lemma HexJoin(volume: Bytes16, i: nat, j: nat)
    requires i <= j <= 16
    ensures Hex(volume[i..j]) + Hex(volume[j..]) == Hex(volume[i..])
  {
    hide Hex;
    HexConcat(volume[i..j], volume[j..]);
    assert volume[i..j] + volume[j..] == volume[i..];
  }

  lemma UuidDigits(volume: Bytes16)
    ensures WithoutDashes(UuidText(volume)) == Hex(volume)
  {
    hide Hex, WithoutDashes;
    var (a, b, c, d, e) := (volume[..4], volume[4..6], volume[6..8], volume[8..10], volume[10..]);
    HexDigits(e);
    NoDashes(Hex(e));
    GroupDashes(d, Hex(e));
    GroupDashes(c, Hex(d) + ("-" + Hex(e)));
    GroupDashes(b, Hex(c) + ("-" + (Hex(d) + ("-" + Hex(e)))));
    GroupDashes(a, Hex(b) + ("-" + (Hex(c) + ("-" + (Hex(d) + ("-" + Hex(e)))))));
    assert UuidText(volume) == Hex(a) + ("-" + (Hex(b) + ("-" + (Hex(c) + ("-" + (Hex(d) + ("-" + Hex(e))))))));
    HexJoin(volume, 8, 10);
    HexJoin(volume, 6, 8);
    HexJoin(volume, 4, 6);
    HexJoin(volume, 0, 4);
    assert volume[0..4] == a && volume[0..] == volume;
  }

  // ----- records -----

  datatype IdentityRecord = IdentityRecord(phase: string, bindingId: string, volumeUuid: string, slot: U8)

  datatype BundleRecord = BundleRecord(phase: string, path: string, sha384: string)

  /** The JSON form of the two kinds of record. */
  datatype Json = Json(
    putIdentity: IdentityRecord -> Bytes, getIdentity: Bytes -> Option<IdentityRecord>,
    putBundle: BundleRecord -> Bytes, getBundle: Bytes -> Option<BundleRecord>)

  /** A written record reads back, and no record contains a raw newline. */
  ghost predicate JsonLaws(json: Json) {
    && (forall r :: json.getIdentity(json.putIdentity(r)) == Some(r) && NEWLINE !in json.putIdentity(r))
    && (forall r :: json.getBundle(json.putBundle(r)) == Some(r) && NEWLINE !in json.putBundle(r))
  }

  type Identity = (Bytes32, Bytes16, U8)

  function JournalIdentity(record: IdentityRecord): Option<Identity> {
    var uuid := record.volumeUuid;
    match Unhexed(32, record.bindingId)
    case None => None
    case Some(binding) =>
      if |uuid| != 36 || uuid[8] != '-' || uuid[13] != '-' || uuid[18] != '-' || uuid[23] != '-' then None
      else match Unhexed(16, WithoutDashes(uuid))
           case None => None
           case Some(volume) =>
             if binding == seq(32, _ => 0) || volume == seq(16, _ => 0) || record.slot >= 32 then None
             else Some((binding, volume, record.slot))
  }

  const PHASES: seq<string> :=
    ["preflight", "pending-bundle-durable", "prepared-and-recovery-tested", "token-written-and-slot-tested"]

  function IdentityOf(phase: string, d: Descriptor): IdentityRecord {
    IdentityRecord(phase, Hex(d.bindingId), UuidText(d.volumeUuid), d.slot)
  }

  predicate Identified(d: Descriptor) {
    d.bindingId != seq(32, _ => 0) && d.volumeUuid != seq(16, _ => 0) && d.slot < 32
  }

  /** The reader recovers the identity a descriptor was recorded under, exactly when the descriptor has one. */
  lemma IdentityRoundTrip(phase: string, d: Descriptor)
    ensures JournalIdentity(IdentityOf(phase, d)) == if Identified(d) then Some((d.bindingId, d.volumeUuid, d.slot)) else None
  {
    hide Hex, WithoutDashes, Unhexed;
    UnhexedExact(32, Hex(d.bindingId), d.bindingId);
    UuidDigits(d.volumeUuid);
    UnhexedExact(16, Hex(d.volumeUuid), d.volumeUuid);
  }

  lemma {:induction false} DashesShrink(text: string)
    ensures |WithoutDashes(text)| <= |text|
    ensures |WithoutDashes(text)| == |text| ==> WithoutDashes(text) == text
  {
    if text != [] {
      DashesShrink(text[1..]);
      assert text == [text[0]] + text[1..];
    }
  }

  /** A text of 36 characters with hyphens in the four places, whose other characters are all digits, is in five groups. */
  lemma UuidGroups(uuid: string)
    requires |uuid| == 36 && uuid[8] == uuid[13] == uuid[18] == uuid[23] == '-' && |WithoutDashes(uuid)| == 32
    ensures WithoutDashes(uuid) == uuid[..8] + uuid[9..13] + uuid[14..18] + uuid[19..23] + uuid[24..]
  {
    hide WithoutDashes;
    var (a, b, c, d, e) := (uuid[..8], uuid[9..13], uuid[14..18], uuid[19..23], uuid[24..]);
    assert uuid == a + ("-" + (b + ("-" + (c + ("-" + (d + ("-" + e)))))));
    AfterDash(a, b + ("-" + (c + ("-" + (d + ("-" + e))))));
    AfterDash(b, c + ("-" + (d + ("-" + e))));
    AfterDash(c, d + ("-" + e));
    AfterDash(d, e);
    DashesShrink(a);
    DashesShrink(b);
    DashesShrink(c);
    DashesShrink(d);
    DashesShrink(e);
  }

  lemma {:induction false} AfterDash(group: string, rest: string)
    ensures WithoutDashes(group + ("-" + rest)) == WithoutDashes(group) + WithoutDashes(rest)
  {
    DashesConcat(group, "-" + rest);
    DashesConcat("-", rest);
    assert WithoutDashes("-") == "";
  }

  /** The digits of a slice of the bytes are the slice of their digits. */
  lemma {:induction false} HexSlice(bytes: Bytes, i: nat, j: nat)
    requires i <= j <= |bytes|
    ensures Hex(bytes[i..j]) == Hex(bytes)[2 * i..2 * j]
  {
    hide Hex;
    var (a, b, c) := (bytes[..i], bytes[i..j], bytes[j..]);
    HexConcat(a, b + c);
    HexConcat(b, c);
    assert a + (b + c) == bytes;
    Middle(Hex(a), Hex(b), Hex(c));
  }

  lemma Middle(a: string, b: string, c: string)
    ensures (a + (b + c))[|a|..|a| + |b|] == b
  {}

  lemma UuidExact(uuid: string, volume: Bytes16)
    requires |uuid| == 36 && uuid[8] == uuid[13] == uuid[18] == uuid[23] == '-' && WithoutDashes(uuid) == Hex(volume)
    ensures uuid == UuidText(volume)
  {
    hide Hex, WithoutDashes;
    UuidGroups(uuid);
    var digits := Hex(volume);
    HexSlice(volume, 0, 4);
    HexSlice(volume, 4, 6);
    HexSlice(volume, 6, 8);
    HexSlice(volume, 8, 10);
    HexSlice(volume, 10, 16);
    assert volume[0..4] == volume[..4] && volume[10..16] == volume[10..];
    assert uuid[..8] == digits[0..8] && uuid[9..13] == digits[8..12] && uuid[14..18] == digits[12..16];
    assert uuid[19..23] == digits[16..20] && uuid[24..] == digits[20..32];
    assert uuid == uuid[..8] + "-" + uuid[9..13] + "-" + uuid[14..18] + "-" + uuid[19..23] + "-" + uuid[24..];
  }

  /** The one record that states an identity in a phase. */
  function RecordOf(phase: string, identity: Identity): IdentityRecord {
    IdentityRecord(phase, Hex(identity.0), UuidText(identity.1), identity.2)
  }

  predicate Nameable(identity: Identity) {
    identity.0 != seq(32, _ => 0) && identity.1 != seq(16, _ => 0) && identity.2 < 32
  }

  /** The reader takes an identity from a record exactly when the record is that identity in its canonical text. */
  lemma IdentityExact(record: IdentityRecord, identity: Identity)
    ensures JournalIdentity(record) == Some(identity) <==> Nameable(identity) && record == RecordOf(record.phase, identity)
  {
    hide Hex, WithoutDashes, Unhexed, UuidText;
    UnhexedExact(32, record.bindingId, identity.0);
    UnhexedExact(16, WithoutDashes(record.volumeUuid), identity.1);
    UuidDigits(identity.1);
    UuidShape(identity.1);
    if JournalIdentity(record) == Some(identity) {
      UuidExact(record.volumeUuid, identity.1);
    }
  }

  lemma UuidShape(volume: Bytes16)
    ensures var uuid := UuidText(volume); |uuid| == 36 && uuid[8] == uuid[13] == uuid[18] == uuid[23] == '-'
  {
    hide Hex;
  }

  // ----- the reader -----

  function FirstNewline(bytes: Bytes): (i: nat)
    ensures i <= |bytes| && (forall k :: 0 <= k < i ==> bytes[k] != NEWLINE) && (i < |bytes| ==> bytes[i] == NEWLINE)
  {
    if bytes == [] || bytes[0] == NEWLINE then 0 else FirstNewline(bytes[1..]) + 1
  }

  /** The pieces between newlines; always at least one. */
  function Split(bytes: Bytes): seq<Bytes> {
    var i := FirstNewline(bytes);
    if i == |bytes| then [bytes] else [bytes[..i]] + Split(bytes[i + 1..])
  }

  /** The identity after line `count`, or a refusal. */
  function CheckLine(json: Json, count: nat, line: Bytes, identity: Option<Identity>): Option<Option<Identity>> {
    if |line| > LINE_LIMIT || count >= |PHASES| then None
    else if count == 1 then
      match json.getBundle(line)
      case None => None
      case Some(record) =>
        if record.phase != PHASES[1] || record.path == "" || Unhexed(48, record.sha384).None? then None else Some(identity)
    else
      match json.getIdentity(line)
      case None => None
      case Some(record) =>
        if record.phase != PHASES[count] then None
        else match JournalIdentity(record)
             case None => None
             case Some(observed) => if identity.Some? && identity.value != observed then None else Some(Some(observed))
  }

  function Check(json: Json, lines: seq<Bytes>, count: nat, identity: Option<Identity>): Option<bool> {
    if lines == [] then Some(count == |PHASES|)
    else match CheckLine(json, count, lines[0], identity)
         case None => None
         case Some(next) => Check(json, lines[1..], count + 1, next)
  }

  /** What a reader concludes from the journal's bytes: committed, pending, or nothing. */
  function Committed(json: Json, bytes: Bytes): Option<bool> {
    if bytes == [] || bytes[|bytes| - 1] != NEWLINE || |bytes| > JOURNAL_LIMIT then None
    else Check(json, Split(bytes[..|bytes| - 1]), 0, None)
  }

  /** A record of the pending bundle: its phase, a path and the text of a 48-byte hash. */
  ghost predicate BundleNamed(record: BundleRecord) {
    record.phase == PHASES[1] && record.path != "" && exists hash: Bytes48 :: record.sha384 == Hex(hash)
  }

  /** What line `k` of a journal of `identity` must be. */
  ghost predicate LineOf(json: Json, k: nat, line: Bytes, identity: Identity) {
    && k < |PHASES| && |line| <= LINE_LIMIT
    && if k == 1 then
         json.getBundle(line).Some? && BundleNamed(json.getBundle(line).value)
       else
         Nameable(identity) && json.getIdentity(line) == Some(RecordOf(PHASES[k], identity))
  }

  /** The lines are those of `identity` from line `count` on. */
  ghost predicate LinesOf(json: Json, lines: seq<Bytes>, count: nat, identity: Identity) {
    forall j :: 0 <= j < |lines| ==> LineOf(json, count + j, lines[j], identity)
  }

  lemma BundleExact(record: BundleRecord)
    ensures record.phase == PHASES[1] && record.path != "" && Unhexed(48, record.sha384).Some? <==> BundleNamed(record)
  {
    hide Hex, Unhexed;
    forall hash: Bytes48 ensures Unhexed(48, record.sha384) == Some(hash) <==> record.sha384 == Hex(hash) {
      UnhexedExact(48, record.sha384, hash);
    }
    if Unhexed(48, record.sha384).Some? {
      UnhexedExact(48, record.sha384, Unhexed(48, record.sha384).value);
      assert |Unhexed(48, record.sha384).value| == 48;
    }
  }

  /** A line passes exactly when it belongs to an identity that agrees with the one known so far. */
  lemma CheckLineExact(json: Json, count: nat, line: Bytes, identity: Option<Identity>, next: Identity)
    requires identity.Some? ==> identity.value == next
    ensures CheckLine(json, count, line, identity).Some? && (count == 1 || CheckLine(json, count, line, identity).value == Some(next))
       <==> LineOf(json, count, line, next)
    ensures CheckLine(json, count, line, identity).Some? && count == 1 ==> CheckLine(json, count, line, identity).value == identity
  {
    hide JournalIdentity, Unhexed, Hex, UuidText, Nameable, BundleNamed;
    if |line| <= LINE_LIMIT && count < |PHASES| {
      if count == 1 {
        if json.getBundle(line).Some? {
          BundleExact(json.getBundle(line).value);
        }
      } else if json.getIdentity(line).Some? {
        IdentityExact(json.getIdentity(line).value, next);
      }
    }
  }

  /** Lines that pass all belong to one identity. */
  lemma {:induction false} CheckedLines(json: Json, lines: seq<Bytes>, count: nat, identity: Option<Identity>) returns (whole: Identity)
    requires Check(json, lines, count, identity).Some?
    ensures LinesOf(json, lines, count, whole) && (identity.Some? ==> identity.value == whole)
  {
    hide CheckLine, LineOf;
    if lines == [] {
      whole := if identity.Some? then identity.value else (seq(32, _ => 0), seq(16, _ => 0), 0);
    } else {
      var next := CheckLine(json, count, lines[0], identity).value;
      whole := CheckedLines(json, lines[1..], count + 1, next);
      NextIdentity(json, count, lines[0], identity);
      CheckLineExact(json, count, lines[0], identity, whole);
      forall j | 0 <= j < |lines| ensures LineOf(json, count + j, lines[j], whole) {
        if j > 0 {
          assert LineOf(json, (count + 1) + (j - 1), lines[1..][j - 1], whole);
        }
      }
    }
  }

  lemma NextIdentity(json: Json, count: nat, line: Bytes, identity: Option<Identity>)
    requires CheckLine(json, count, line, identity).Some?
    ensures identity.Some? ==> CheckLine(json, count, line, identity).value == identity
    ensures count != 1 ==> CheckLine(json, count, line, identity).value.Some?
  {
    hide JournalIdentity, Unhexed;
  }

  /** Lines of one identity pass, and end a journal exactly when they reach the last phase. */
  lemma {:induction false} LinesPass(json: Json, lines: seq<Bytes>, count: nat, identity: Option<Identity>, whole: Identity)
    requires LinesOf(json, lines, count, whole) && (identity.Some? ==> identity.value == whole)
    ensures Check(json, lines, count, identity) == Some(count + |lines| == |PHASES|)
  {
    hide CheckLine, LineOf;
    if lines != [] {
      assert LineOf(json, count + 0, lines[0], whole);
      CheckLineExact(json, count, lines[0], identity, whole);
      forall j | 0 <= j < |lines[1..]| ensures LineOf(json, (count + 1) + j, lines[1..][j], whole) {
        assert LineOf(json, count + (j + 1), lines[j + 1], whole);
      }
      LinesPass(json, lines[1..], count + 1, CheckLine(json, count, lines[0], identity).value, whole);
    }
  }

  /** The lines, each followed by a newline. */
  function Terminated(lines: seq<Bytes>): Bytes {
    if lines == [] then [] else lines[0] + [NEWLINE] + Terminated(lines[1..])
  }

  predicate NoNewlines(lines: seq<Bytes>) {
    forall i :: 0 <= i < |lines| ==> NEWLINE !in lines[i]
  }

  /** Splitting undoes terminating. */
  lemma {:induction false} SplitTerminates(rest: Bytes)
    ensures Split(rest) != [] && NoNewlines(Split(rest)) && Terminated(Split(rest)) == rest + [NEWLINE]
    decreases |rest|
  {
    var i := FirstNewline(rest);
    var lines := Split(rest);
    if i < |rest| {
      SplitTerminates(rest[i + 1..]);
      assert lines[1..] == Split(rest[i + 1..]);
      assert rest[..i] + [NEWLINE] + (rest[i + 1..] + [NEWLINE]) == rest + [NEWLINE];
    } else {
      assert lines[1..] == [] && Terminated([]) == [];
    }
  }

  lemma {:induction false} TerminatedSplits(lines: seq<Bytes>, rest: Bytes)
    requires lines != [] && NoNewlines(lines) && rest + [NEWLINE] == Terminated(lines)
    ensures Split(rest) == lines
  {
    hide Split;
    var more := Terminated(lines[1..]);
    if |lines| == 1 {
      assert more == [];
      assert rest + [NEWLINE] == lines[0] + [NEWLINE];
      SamePrefix(rest, lines[0]);
      SplitRecord(lines[0], []);
    } else {
      TerminatedEnd(lines[1..]);
      var inner := more[..|more| - 1];
      assert inner + [NEWLINE] == more;
      assert rest + [NEWLINE] == (lines[0] + [NEWLINE] + inner) + [NEWLINE];
      SamePrefix(rest, lines[0] + [NEWLINE] + inner);
      TerminatedSplits(lines[1..], inner);
      SplitRecord(lines[0], inner);
    }
  }

  lemma SamePrefix(a: Bytes, b: Bytes)
    requires a + [NEWLINE] == b + [NEWLINE]
    ensures a == b
  {
    assert a == (a + [NEWLINE])[..|a|] && b == (b + [NEWLINE])[..|b|];
  }

  lemma {:induction false} TerminatedEnd(lines: seq<Bytes>)
    requires lines != []
    ensures var bytes := Terminated(lines); bytes != [] && bytes[|bytes| - 1] == NEWLINE
  {
    if |lines| > 1 {
      TerminatedEnd(lines[1..]);
    }
  }

  /** A journal: one to four lines of one identity in the order of the phases, each within its limit. */
  ghost predicate JournalOf(json: Json, bytes: Bytes, lines: seq<Bytes>, identity: Identity) {
    && |bytes| <= JOURNAL_LIMIT && bytes == Terminated(lines) && NoNewlines(lines)
    && 1 <= |lines| <= |PHASES| && LinesOf(json, lines, 0, identity)
  }

  /** The reader reads exactly the journals, and calls those of all four lines committed. */
  lemma CommittedExact(json: Json, bytes: Bytes, committed: bool)
    ensures Committed(json, bytes) == Some(committed)
       <==> exists lines, identity :: JournalOf(json, bytes, lines, identity) && (committed <==> |lines| == |PHASES|)
  {
    hide Check, LineOf, Split, Terminated;
    if Committed(json, bytes) == Some(committed) {
      var rest := bytes[..|bytes| - 1];
      var lines := Split(rest);
      SplitTerminates(rest);
      assert rest + [NEWLINE] == bytes;
      var identity := CheckedLines(json, lines, 0, None);
      LinesPass(json, lines, 0, None, identity);
      assert LineOf(json, 0 + (|lines| - 1), lines[|lines| - 1], identity);
      LineBound(json, |lines| - 1, lines[|lines| - 1], identity);
      assert JournalOf(json, bytes, lines, identity);
    }
    forall lines, identity | JournalOf(json, bytes, lines, identity) ensures Committed(json, bytes) == Some(|lines| == |PHASES|) {
      TerminatedEnd(lines);
      var rest := bytes[..|bytes| - 1];
      assert rest + [NEWLINE] == bytes;
      TerminatedSplits(lines, rest);
      LinesPass(json, lines, 0, None, identity);
    }
  }

  lemma LineBound(json: Json, k: nat, line: Bytes, identity: Identity)
    requires LineOf(json, k, line, identity)
    ensures k < |PHASES|
  {}

  method JournalCommitted(json: Json, bytes: Bytes) returns (result: Option<bool>)
    ensures result == Committed(json, bytes)
    ensures forall committed: bool ::
              result == Some(committed)
              <==> exists lines, identity :: JournalOf(json, bytes, lines, identity) && (committed <==> |lines| == |PHASES|)
  {
    hide CheckLine, JournalOf;
    CommittedExact(json, bytes, true);
    CommittedExact(json, bytes, false);
    if bytes == [] || bytes[|bytes| - 1] != NEWLINE || |bytes| > JOURNAL_LIMIT {
      return None;
    }
    var rest := bytes[..|bytes| - 1];
    var count := 0;
    var identity: Option<Identity> := None;
    var more := true;
    while more
      invariant more ==> Committed(json, bytes) == Check(json, Split(rest), count, identity)
      invariant !more ==> Committed(json, bytes) == Some(count == |PHASES|)
      decreases more, |rest|
    {
      var end := 0;
      while end < |rest| && rest[end] != NEWLINE
        invariant 0 <= end <= |rest|
        invariant forall k :: 0 <= k < end ==> rest[k] != NEWLINE
      {
        end := end + 1;
      }
      assert end == FirstNewline(rest);
      var line := rest[..end];
      assert Split(rest)[0] == line;
      var next := CheckLine(json, count, line, identity);
      if next.None? {
        return None;
      }
      identity := next.value;
      count := count + 1;
      if end == |rest| {
        assert line == rest;
        assert Split(rest)[1..] == [];
        more := false;
      } else {
        assert Split(rest)[1..] == Split(rest[end + 1..]);
        rest := rest[end + 1..];
      }
    }
    result := Some(count == |PHASES|);
  }

  // ----- what the writer writes -----

  /** The four records of one enrollment. */
  datatype JournalPlan = JournalPlan(json: Json, descriptor: Descriptor, path: string, hash: Bytes48)

  function RecordBytes(p: JournalPlan, k: nat): Bytes
    requires k < 4
  {
    if k == 1 then p.json.putBundle(BundleRecord(PHASES[1], p.path, Hex(p.hash)))
    else p.json.putIdentity(IdentityOf(PHASES[k], p.descriptor))
  }

  function Line(p: JournalPlan, k: nat): Bytes
    requires k < 4
  {
    RecordBytes(p, k) + [NEWLINE]
  }

  /** The first n records. */
  function Log(p: JournalPlan, n: nat): Bytes
    requires n <= 4
  {
    if n == 0 then [] else Log(p, n - 1) + Line(p, n - 1)
  }

  predicate LineReadable(p: JournalPlan, k: nat)
    requires k < 4
  {
    |RecordBytes(p, k)| <= LINE_LIMIT && if k == 1 then p.path != "" else Identified(p.descriptor)
  }

  predicate Readable(p: JournalPlan, n: nat)
    requires n <= 4
  {
    forall k :: 0 <= k < n ==> LineReadable(p, k)
  }

  lemma RecordNewline(p: JournalPlan, k: nat)
    requires JsonLaws(p.json) && k < 4
    ensures NEWLINE !in RecordBytes(p, k)
  {}

  lemma FirstNewlineAt(record: Bytes, rest: Bytes)
    requires NEWLINE !in record
    ensures FirstNewline(record + [NEWLINE] + rest) == |record| && FirstNewline(record) == |record|
  {
    var bytes := record + [NEWLINE] + rest;
    assert bytes[|record|] == NEWLINE;
    assert forall k :: 0 <= k < |record| ==> bytes[k] == record[k];
  }

  lemma SplitRecord(record: Bytes, rest: Bytes)
    requires NEWLINE !in record
    ensures Split(record + [NEWLINE] + rest) == [record] + Split(rest) && Split(record) == [record]
  {
    FirstNewlineAt(record, rest);
    var bytes := record + [NEWLINE] + rest;
    assert bytes[..|record|] == record && bytes[|record| + 1..] == rest;
  }

  /** The check of one record as written. */
  lemma CheckRecord(p: JournalPlan, k: nat, identity: Option<Identity>)
    requires JsonLaws(p.json) && k < 4
    requires identity.Some? ==> Identified(p.descriptor) && identity.value == (p.descriptor.bindingId, p.descriptor.volumeUuid, p.descriptor.slot)
    ensures CheckLine(p.json, k, RecordBytes(p, k), identity)
         == if !LineReadable(p, k) then None
            else if k == 1 then Some(identity)
            else Some(Some((p.descriptor.bindingId, p.descriptor.volumeUuid, p.descriptor.slot)))
  {
    hide Hex, Unhexed, UuidText, JournalIdentity, Identified, IdentityOf;
    IdentityRoundTrip(PHASES[k], p.descriptor);
    IdentityPhase(PHASES[k], p.descriptor);
    UnhexedExact(48, Hex(p.hash), p.hash);
  }

  lemma IdentityPhase(phase: string, d: Descriptor)
    ensures IdentityOf(phase, d).phase == phase
  {}

  function Records(p: JournalPlan, k: nat, n: nat): seq<Bytes>
    requires k <= n <= 4
    decreases n - k
  {
    if k == n then [] else [RecordBytes(p, k)] + Records(p, k + 1, n)
  }

  /** Reading records k to n as written, with the identity known from earlier ones. */
  lemma {:induction false} CheckRecords(p: JournalPlan, k: nat, n: nat, identity: Option<Identity>)
    requires JsonLaws(p.json) && k <= n <= 4
    requires identity.Some? ==> Identified(p.descriptor) && identity.value == (p.descriptor.bindingId, p.descriptor.volumeUuid, p.descriptor.slot)
    ensures Check(p.json, Records(p, k, n), k, identity)
         == if forall j :: k <= j < n ==> LineReadable(p, j) then Some(n == 4) else None
    decreases n - k
  {
    hide CheckLine, RecordBytes, JsonLaws;
    if k < n {
      CheckRecord(p, k, identity);
      assert Records(p, k, n)[1..] == Records(p, k + 1, n);
      if LineReadable(p, k) {
        CheckRecords(p, k + 1, n, CheckLine(p.json, k, RecordBytes(p, k), identity).value);
      }
    }
  }

  /** Lines k to n joined, without the final newline. */
  function Joined(p: JournalPlan, k: nat, n: nat): Bytes
    requires k < n <= 4
    decreases n - k
  {
    if k + 1 == n then RecordBytes(p, k) else RecordBytes(p, k) + [NEWLINE] + Joined(p, k + 1, n)
  }

  lemma {:induction false} SplitJoined(p: JournalPlan, k: nat, n: nat)
    requires JsonLaws(p.json) && k < n <= 4
    ensures Split(Joined(p, k, n)) == Records(p, k, n)
    decreases n - k
  {
    hide Split, RecordBytes;
    RecordNewline(p, k);
    if k + 1 == n {
      SplitRecord(RecordBytes(p, k), []);
    } else {
      SplitRecord(RecordBytes(p, k), Joined(p, k + 1, n));
      SplitJoined(p, k + 1, n);
    }
  }

  lemma {:induction false} JoinedLog(p: JournalPlan, k: nat, n: nat)
    requires k < n <= 4
    ensures Log(p, n) == Log(p, k) + Joined(p, k, n) + [NEWLINE]
    decreases n - k
  {
    hide RecordBytes;
    if k + 1 < n {
      JoinedLog(p, k + 1, n);
    }
  }

  lemma {:induction false} LogSize(p: JournalPlan, n: nat)
    requires n <= 4 && Readable(p, n)
    ensures |Log(p, n)| <= n * (LINE_LIMIT + 1)
  {
    if n > 0 {
      LogSize(p, n - 1);
      assert LineReadable(p, n - 1);
    }
  }

  /** Whole records read back as pending, or committed with all four, exactly when each of them is readable. */
  lemma WholeRecords(p: JournalPlan, n: nat)
    requires JsonLaws(p.json) && 0 < n <= 4
    ensures Committed(p.json, Log(p, n)) == if Readable(p, n) then Some(n == 4) else None
  {
    hide RecordBytes, Split, Check, JsonLaws, Joined, Log;
    var bytes := Log(p, n);
    JoinedLog(p, 0, n);
    assert Log(p, 0) == [] by { EmptyLog(p); }
    assert bytes[..|bytes| - 1] == Joined(p, 0, n);
    SplitJoined(p, 0, n);
    CheckRecords(p, 0, n, None);
    if Readable(p, n) {
      LogSize(p, n);
    }
  }

  lemma EmptyLog(p: JournalPlan)
    ensures Log(p, 0) == []
  {}

  lemma {:induction false} LogGrows(p: JournalPlan, k: nat, n: nat)
    requires k <= n <= 4
    ensures Log(p, k) <= Log(p, n) && |Log(p, k)| + (n - k) <= |Log(p, n)|
  {
    hide RecordBytes;
    if k < n {
      LogGrows(p, k, n - 1);
    }
  }

  /** A cut strictly inside line k. */
  lemma TornRecord(p: JournalPlan, k: nat, cut: nat)
    requires JsonLaws(p.json) && k < 4 && |Log(p, k)| < cut < |Log(p, k + 1)|
    ensures Committed(p.json, Log(p, k + 1)[..cut]) == None
  {
    RecordNewline(p, k);
    InsideRecord(p, k, cut);
    hide Split, Check, JsonLaws, RecordBytes, Log;
    var bytes := Log(p, k + 1)[..cut];
    assert bytes[cut - 1] == Log(p, k + 1)[cut - 1];
  }

  lemma InsideRecord(p: JournalPlan, k: nat, cut: nat)
    requires k < 4 && |Log(p, k)| < cut < |Log(p, k + 1)|
    ensures Log(p, k + 1)[cut - 1] in RecordBytes(p, k)
  {
    hide RecordBytes;
    var before, record := Log(p, k), RecordBytes(p, k);
    assert Log(p, k + 1) == before + (record + [NEWLINE]);
    assert Log(p, k + 1)[cut - 1] == record[cut - 1 - |before|];
  }

  /** The journal cut after any number of bytes. A reader calls it committed only if all four records are complete, and
      pending exactly after one to three complete records; an empty or torn journal tells it nothing. */
  lemma {:induction false} CutJournal(p: JournalPlan, n: nat, cut: nat)
    requires JsonLaws(p.json) && n <= 4 && Readable(p, n) && cut <= |Log(p, n)|
    ensures Committed(p.json, Log(p, n)[..cut]) == Some(true) <==> n == 4 && cut == |Log(p, n)|
    ensures Committed(p.json, Log(p, n)[..cut]) == Some(false) <==> exists k :: 0 < k <= n && k < 4 && cut == |Log(p, k)|
  {
    hide Committed, RecordBytes, JsonLaws, LineReadable;
    var bytes := Log(p, n)[..cut];
    if n == 0 {
      assert bytes == [];
      EmptyUnknown(p.json);
    } else if cut == |Log(p, n)| {
      assert bytes == Log(p, n);
      WholeRecords(p, n);
      forall k | 0 < k < n ensures |Log(p, k)| != cut {
        LogGrows(p, k, n);
      }
    } else {
      forall k | 0 < k < n ensures |Log(p, k)| <= |Log(p, n - 1)| {
        LogGrows(p, k, n - 1);
      }
      if cut <= |Log(p, n - 1)| {
        assert bytes == Log(p, n - 1)[..cut];
        CutJournal(p, n - 1, cut);
        LogGrows(p, n - 1, n);
      } else {
        TornRecord(p, n - 1, cut);
      }
    }
  }

  lemma EmptyUnknown(json: Json)
    ensures Committed(json, []) == None
  {}
}
