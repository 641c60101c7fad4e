/** The compact form of a note: lower-case hex strings become bytes, long strings are compressed. */
module EncStrings {
  import opened Prelude

  datatype EncString = Unset | Utf8String(text: string) | HexEncoded(bytes: seq<byte>) | Compressed(packed: seq<byte>)

  /** The compressor, of which only the round trip is known; bytes may fail to unpack to text. */
  datatype Brotli = Brotli(compress: string -> seq<byte>, decompress: seq<byte> -> Option<string>)

  ghost predicate Inverse(brotli: Brotli) {
    forall s :: brotli.decompress(brotli.compress(s)) == Some(s)
  }

  predicate IsHexChar(c: char) {
    '0' <= c <= '9' || 'a' <= c <= 'f'
  }

  function Nibble(c: char): (n: int)
    requires IsHexChar(c)
    ensures 0 <= n < 16
  {
    if c <= '9' then c as int - '0' as int else c as int - 'a' as int + 10
  }

  function HexChar(n: int): (c: char)
    requires 0 <= n < 16
    ensures IsHexChar(c)
  {
    if n < 10 then (n + '0' as int) as char else (n - 10 + 'a' as int) as char
  }

  lemma HexCharNibble(n: int)
    requires 0 <= n < 16
    ensures Nibble(HexChar(n)) == n
  {
  }

  lemma NibbleHexChar(c: char)
    requires IsHexChar(c)
    ensures HexChar(Nibble(c)) == c
  {
  }

  /** `hex::encode`: two lower-case digits a byte, high nibble first. */
  function HexEncode(bytes: seq<byte>): (s: string)
    ensures |s| == 2 * |bytes|
    ensures forall i :: 0 <= i < |s| ==> IsHexChar(s[i])
  {
    if bytes == [] then ""
    else [HexChar(bytes[0] / 16), HexChar(bytes[0] % 16)] + HexEncode(bytes[1..])
  }

  /** Non-empty, of even length, and only lower-case hex digits. */
  predicate IsLowerHex(s: string) {
    s != "" && |s| % 2 == 0 && forall i :: 0 <= i < |s| ==> IsHexChar(s[i])
  }

  function HexDecode(s: string): (bytes: seq<byte>)
    requires |s| % 2 == 0 && forall i :: 0 <= i < |s| ==> IsHexChar(s[i])
    ensures |s| == 2 * |bytes|
  {
    if s == "" then [] else [16 * Nibble(s[0]) + Nibble(s[1])] + HexDecode(s[2..])
  }

  /**
    `is_valid_hex_lowercase`. The source tests the byte length; for a string of hex digits that
    is the number of characters, and any other string fails the digit test.
   */
  function ValidHexLowercase(s: string): Option<seq<byte>> {
    if IsLowerHex(s) then Some(HexDecode(s)) else None
  }

  lemma {:induction false} EncodeDecoded(s: string)
    requires |s| % 2 == 0 && forall i :: 0 <= i < |s| ==> IsHexChar(s[i])
    ensures HexEncode(HexDecode(s)) == s
  {
    if s != "" {
      EncodeDecoded(s[2..]);
      NibbleHexChar(s[0]);
      NibbleHexChar(s[1]);
      var high, low := Nibble(s[0]), Nibble(s[1]);
      assert (16 * high + low) / 16 == high && (16 * high + low) % 16 == low;
      assert HexDecode(s)[0] == 16 * high + low && HexDecode(s)[1..] == HexDecode(s[2..]);
      assert s == [s[0], s[1]] + s[2..];
    }
  }

  lemma {:induction false} DecodeEncoded(bytes: seq<byte>)
    ensures HexDecode(HexEncode(bytes)) == bytes
  {
    if bytes != [] {
      DecodeEncoded(bytes[1..]);
      HexCharNibble(bytes[0] / 16);
      HexCharNibble(bytes[0] % 16);
      assert HexEncode(bytes)[2..] == HexEncode(bytes[1..]);
      assert bytes == [bytes[0]] + bytes[1..];
    }
  }

  /** Byte i becomes the two hex digits of its value, the one worth 16 first. */
  lemma {:induction false} HexDigitsOfByte(bytes: seq<byte>, i: nat)
    requires i < |bytes|
    ensures HexEncode(bytes)[2 * i] == "0123456789abcdef"[bytes[i] / 16]
    ensures HexEncode(bytes)[2 * i + 1] == "0123456789abcdef"[bytes[i] % 16]
  {
    if i > 0 {
      HexDigitsOfByte(bytes[1..], i - 1);
      assert HexEncode(bytes)[2..] == HexEncode(bytes[1..]);
    }
  }

  // ---- the choice of encoding ----

  function Utf8Width(c: char): nat {
    if c as int < 0x80 then 1 else if c as int < 0x800 then 2 else if c as int < 0x1_0000 then 3 else 4
  }

  /** Length in bytes of the UTF-8 form. */
  function Utf8Length(s: string): nat {
    if s == "" then 0 else Utf8Width(s[0]) + Utf8Length(s[1..])
  }

  function Pow2(n: nat): nat {
    if n == 0 then 1 else 2 * Pow2(n - 1)
  }

  /** How many code points fit in n bytes: 7 bits in one, 7 - n in the first and 6 in each other of more. */
  function Utf8Room(n: nat): nat
    requires 1 <= n <= 4
  {
    if n == 1 then Pow2(7) else Pow2(7 - n + 6 * (n - 1))
  }

  /** A character takes the least number of bytes with room for it (section 3 of RFC 3629). */
  lemma WidthIsLeast(c: char, n: nat)
    requires 1 <= n <= 4
    ensures n >= Utf8Width(c) <==> (c as int) < Utf8Room(n)
  {
    assert Pow2(7) == 0x80 && Pow2(11) == 0x800;
    assert Pow2(16) == 32 * Pow2(11) == 0x1_0000 && Pow2(21) == 32 * Pow2(16) == 0x20_0000;
  }

  const COMPRESS_ABOVE: nat := 50

  function Encode(s: string, brotli: Brotli): EncString {
    match ValidHexLowercase(s)
    case Some(bytes) => HexEncoded(bytes)
    case None =>
      if Utf8Length(s) > COMPRESS_ABOVE then Compressed(brotli.compress(s)) else Utf8String(s)
  }

  /** The displayed text of an encoded string; None where displaying it panics. */
  function Decode(e: EncString, brotli: Brotli): Option<string> {
    match e
    case Utf8String(text) => Some(text)
    case HexEncoded(bytes) => Some(HexEncode(bytes))
    case Compressed(packed) => brotli.decompress(packed)
    case Unset => Some("")
  }

  /** Hex text becomes bytes; other text is compressed from 51 bytes of UTF-8 on, and kept as it is below. */
  lemma EncodingChosen(s: string, brotli: Brotli)
    ensures var hex := s != "" && |s| % 2 == 0 && forall c :: c in s ==> c in "0123456789abcdef";
      && (Encode(s, brotli).HexEncoded? <==> hex)
      && (!hex && Utf8Length(s) >= 51 ==> Encode(s, brotli) == Compressed(brotli.compress(s)))
      && (!hex && Utf8Length(s) <= 50 ==> Encode(s, brotli) == Utf8String(s))
  {
    forall i | 0 <= i < |s| ensures IsHexChar(s[i]) <==> s[i] in "0123456789abcdef" {
      HexCharsAre(s[i]);
    }
    assert forall i :: 0 <= i < |s| ==> s[i] in s;
  }

  lemma HexCharsAre(c: char)
    ensures IsHexChar(c) <==> c in "0123456789abcdef"
  {
    if IsHexChar(c) {
      assert "0123456789abcdef"[Nibble(c)] == c;
    }
  }

  /** Only packed text can fail to be read, and what is not set reads as nothing. */
  lemma OnlyPackedCanFail(e: EncString, brotli: Brotli)
    ensures Decode(e, brotli).None? <==> e.Compressed? && brotli.decompress(e.packed).None?
    ensures e.Unset? ==> Decode(e, brotli) == Some("")
    ensures e.Utf8String? ==> Decode(e, brotli) == Some(e.text)
  {
  }

  /** The length in bytes of a text is that of its characters together. */
  lemma {:induction false} Utf8LengthJoins(a: string, b: string)
    ensures Utf8Length(a + b) == Utf8Length(a) + Utf8Length(b)
    ensures |a| == 1 ==> Utf8Length(a) == Utf8Width(a[0])
  {
    if a == "" {
      assert a + b == b;
    } else {
      Utf8LengthJoins(a[1..], b);
      assert (a + b)[1..] == a[1..] + b;
    }
  }

  /** Every string survives encoding. */
  lemma DecodeEncode(s: string, brotli: Brotli)
    requires Inverse(brotli)
    ensures Decode(Encode(s, brotli), brotli) == Some(s)
  {
    if IsLowerHex(s) {
      EncodeDecoded(s);
    }
  }

  lemma EncodeInjective(s: string, t: string, brotli: Brotli)
    requires Inverse(brotli) && Encode(s, brotli) == Encode(t, brotli)
    ensures s == t
  {
    DecodeEncode(s, brotli);
    DecodeEncode(t, brotli);
  }

  /** What Encode itself would have produced. */
  ghost predicate Canonical(e: EncString, brotli: Brotli) {
    match e
    case Unset => false
    case Utf8String(text) => !IsLowerHex(text) && Utf8Length(text) <= COMPRESS_ABOVE
    case HexEncoded(bytes) => bytes != []
    case Compressed(packed) =>
      match brotli.decompress(packed)
      case Some(text) =>
        !IsLowerHex(text) && Utf8Length(text) > COMPRESS_ABOVE && brotli.compress(text) == packed
      case None => false
  }

  /** Re-encoding the text of an encoded string gives that same encoding exactly when it is canonical. */
  lemma EncodeDecodeIff(e: EncString, brotli: Brotli)
    ensures Decode(e, brotli).Some? && Encode(Decode(e, brotli).value, brotli) == e <==> Canonical(e, brotli)
  {
    if e.HexEncoded? {
      DecodeEncoded(e.bytes);
    }
  }
}

/** Converting nostr events to compact notes and back. */
module EncNotes {
  import opened Prelude
  import opened EncStrings

  datatype Event = Event(
    id: seq<byte>, pubkey: seq<byte>, createdAt: u64, kind: u16,
    tags: seq<seq<string>>, content: string, sig: seq<byte>)

  datatype EncNote = EncNote(
    id: seq<byte>, pubkey: seq<byte>, createdAt: u64, kind: u32,
    tags: seq<seq<EncString>>, content: Option<EncString>, sig: seq<byte>)

  /** What the libraries accept: which bytes are a public key, and which lists of strings are a tag. */
  datatype Library = Library(brotli: Brotli, validKey: seq<byte> -> bool, validTag: seq<string> -> bool)

  /** Unpackable stands for the panic of the decompressor. */
  datatype ConvertError = BadId | BadKey | BadTag | BadSignature | Unpackable

  function EncodeTag(tag: seq<string>, brotli: Brotli): (r: seq<EncString>)
    ensures |r| == |tag|
  {
    seq(|tag|, i requires 0 <= i < |tag| => Encode(tag[i], brotli))
  }

  predicate Readable(e: EncString, brotli: Brotli) {
    Decode(e, brotli).Some?
  }

  predicate TagReadable(tag: seq<EncString>, brotli: Brotli) {
    forall i :: 0 <= i < |tag| ==> Readable(tag[i], brotli)
  }

  function DecodeTag(tag: seq<EncString>, brotli: Brotli): (r: seq<string>)
    requires TagReadable(tag, brotli)
    ensures |r| == |tag|
  {
    seq(|tag|, i requires 0 <= i < |tag| => Decode(tag[i], brotli).value)
  }

  function ToEncNote(e: Event, lib: Library): EncNote {
    EncNote(e.id, e.pubkey, e.createdAt, e.kind,
      seq(|e.tags|, i requires 0 <= i < |e.tags| => EncodeTag(e.tags[i], lib.brotli)),
      Some(Encode(e.content, lib.brotli)), e.sig)
  }

  /** The tags in order, up to the first that does not convert. */
  function ConvertTags(tags: seq<seq<EncString>>, lib: Library): Result<seq<seq<string>>, ConvertError> {
    if tags == [] then Success([])
    else
      var last := tags[|tags| - 1];
      match ConvertTags(tags[..|tags| - 1], lib)
      case Failure(error) => Failure(error)
      case Success(texts) =>
        if !TagReadable(last, lib.brotli) then Failure(Unpackable)
        else if !lib.validTag(DecodeTag(last, lib.brotli)) then Failure(BadTag)
        else Success(texts + [DecodeTag(last, lib.brotli)])
  }

  function ToEvent(n: EncNote, lib: Library): Result<Event, ConvertError> {
    if |n.id| != 32 then Failure(BadId)
    else if !lib.validKey(n.pubkey) then Failure(BadKey)
    else
      match ConvertTags(n.tags, lib)
      case Failure(error) => Failure(error)
      case Success(tags) =>
        match (if n.content.Some? then Decode(n.content.value, lib.brotli) else Some(""))
        case None => Failure(Unpackable)
        case Some(content) =>
          if |n.sig| != 64 then Failure(BadSignature)
          else Success(Event(n.id, n.pubkey, n.createdAt, n.kind % 0x1_0000, tags, content, n.sig))
  }

  // ---- which notes convert ----

  predicate TagConverts(tag: seq<EncString>, lib: Library) {
    TagReadable(tag, lib.brotli) && lib.validTag(DecodeTag(tag, lib.brotli))
  }

  /** Told from the note itself: lengths, key, and every string readable and every tag valid. */
  predicate Convertible(n: EncNote, lib: Library) {
    && |n.id| == 32 && lib.validKey(n.pubkey) && |n.sig| == 64
    && (forall i :: 0 <= i < |n.tags| ==> TagConverts(n.tags[i], lib))
    && (n.content.Some? ==> Readable(n.content.value, lib.brotli))
  }

  lemma {:induction false} TagsConvertIff(tags: seq<seq<EncString>>, lib: Library)
    ensures ConvertTags(tags, lib).Success? <==> forall i :: 0 <= i < |tags| ==> TagConverts(tags[i], lib)
    ensures ConvertTags(tags, lib).Success? ==>
      && |ConvertTags(tags, lib).value| == |tags|
      && forall i :: 0 <= i < |tags| ==>
        TagReadable(tags[i], lib.brotli) && ConvertTags(tags, lib).value[i] == DecodeTag(tags[i], lib.brotli)
  {
    if tags != [] {
      var fewer, last := tags[..|tags| - 1], tags[|tags| - 1];
      TagsConvertIff(fewer, lib);
      assert tags == fewer + [last];
      if forall i :: 0 <= i < |tags| ==> TagConverts(tags[i], lib) {
        assert forall i :: 0 <= i < |fewer| ==> fewer[i] == tags[i];
        assert TagConverts(tags[|tags| - 1], lib);
      }
      if ConvertTags(tags, lib).Success? {
        assert TagConverts(last, lib);
      }
    }
  }

  /** A compact note converts to an event exactly under that condition. */
  lemma ConvertsIff(n: EncNote, lib: Library)
    ensures ToEvent(n, lib).Success? <==> Convertible(n, lib)
  {
    TagsConvertIff(n.tags, lib);
  }

  /** What holds of every event the nostr library has parsed. */
  ghost predicate WellFormed(e: Event, lib: Library) {
    && |e.id| == 32 && lib.validKey(e.pubkey) && |e.sig| == 64
    && forall i :: 0 <= i < |e.tags| ==> lib.validTag(e.tags[i])
  }

  lemma DecodeEncodedTag(tag: seq<string>, brotli: Brotli)
    requires Inverse(brotli)
    ensures TagReadable(EncodeTag(tag, brotli), brotli)
    ensures DecodeTag(EncodeTag(tag, brotli), brotli) == tag
  {
    forall i | 0 <= i < |tag| ensures Decode(EncodeTag(tag, brotli)[i], brotli) == Some(tag[i]) {
      DecodeEncode(tag[i], brotli);
    }
  }

  /** Every event converts back to itself: content, every element of every tag, kind and all. */
  lemma EventRoundTrip(e: Event, lib: Library)
    requires Inverse(lib.brotli) && WellFormed(e, lib)
    ensures ToEvent(ToEncNote(e, lib), lib) == Success(e)
  {
    var n := ToEncNote(e, lib);
    forall i | 0 <= i < |e.tags|
      ensures TagConverts(n.tags[i], lib) && DecodeTag(n.tags[i], lib.brotli) == e.tags[i]
    {
      DecodeEncodedTag(e.tags[i], lib.brotli);
    }
    TagsConvertIff(n.tags, lib);
    assert ConvertTags(n.tags, lib).value == e.tags;
    DecodeEncode(e.content, lib.brotli);
  }

  /** Different events have different compact forms, well-formed or not. */
  lemma ToEncNoteInjective(a: Event, b: Event, lib: Library)
    requires Inverse(lib.brotli) && ToEncNote(a, lib) == ToEncNote(b, lib)
    ensures a == b
  {
    var n := ToEncNote(a, lib);
    assert |a.tags| == |n.tags| == |b.tags|;
    forall i | 0 <= i < |a.tags| ensures a.tags[i] == b.tags[i] {
      assert n.tags[i] == EncodeTag(a.tags[i], lib.brotli) == EncodeTag(b.tags[i], lib.brotli);
      DecodeEncodedTag(a.tags[i], lib.brotli);
      DecodeEncodedTag(b.tags[i], lib.brotli);
    }
    EncodeInjective(a.content, b.content, lib.brotli);
  }

  /** A note without content gives the event that one with empty content gives. */
  lemma NoContentIsEmpty(n: EncNote, lib: Library)
    ensures ToEvent(n.(content := None), lib) == ToEvent(n.(content := Some(Utf8String(""))), lib)
  {
  }

  /** Only the low 16 bits of the kind matter: kinds that differ by a multiple of 65536 give the same event. */
  lemma KindsAlias(n: EncNote, k: u32, lib: Library)
    requires (n.kind - k) % 0x1_0000 == 0
    ensures ToEvent(n.(kind := k), lib) == ToEvent(n, lib)
  {
  }

  ghost predicate CanonicalNote(n: EncNote, lib: Library) {
    && n.kind < 0x1_0000
    && n.content.Some? && Canonical(n.content.value, lib.brotli)
    && forall i, j :: 0 <= i < |n.tags| && 0 <= j < |n.tags[i]| ==> Canonical(n.tags[i][j], lib.brotli)
  }

  /**
    A received note that converts to an event is reproduced by converting that event exactly when
    all its strings are canonical, it has content, and its kind fits 16 bits.
   */
  lemma NoteRoundTripIff(n: EncNote, lib: Library)
    requires ToEvent(n, lib).Success?
    ensures ToEncNote(ToEvent(n, lib).value, lib) == n <==> CanonicalNote(n, lib)
  {
    TagsConvertIff(n.tags, lib);
    var n' := ToEncNote(ToEvent(n, lib).value, lib);
    forall i, j | 0 <= i < |n.tags| && 0 <= j < |n.tags[i]|
      ensures n'.tags[i][j] == n.tags[i][j] <==> Canonical(n.tags[i][j], lib.brotli)
    {
      EncodeDecodeIff(n.tags[i][j], lib.brotli);
    }
    if n.content.Some? {
      EncodeDecodeIff(n.content.value, lib.brotli);
    }
    if CanonicalNote(n, lib) {
      forall i | 0 <= i < |n.tags| ensures n'.tags[i] == n.tags[i] {
      }
      assert n'.tags == n.tags;
    }
  }
}
