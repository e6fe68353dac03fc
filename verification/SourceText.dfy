/** UTF-8 and the line-ending normalisation applied to reviewed text sources. */
module SourceText {
  import opened Collections
  import opened Text

  type Byte = b: int | 0 <= b < 0x100

  type Bytes = seq<Byte>

  type CodePoint = c: int | 0 <= c < 0x11_0000 && !(0xD800 <= c < 0xE000)

  const LF: CodePoint := 10
  const CR: CodePoint := 13
  const MARK: CodePoint := 0xFEFF
  const MARK_BYTES: Bytes := [0xEF, 0xBB, 0xBF]

  // ---------------------------------------------------------------- UTF-8

  function EncodeOne(c: CodePoint): (r: Bytes)
    ensures 1 <= |r| <= 4
  {
    if c < 0x80 then [c]
    else if c < 0x800 then [0xC0 + c / 0x40, 0x80 + c % 0x40]
    else if c < 0x1_0000 then [0xE0 + c / 0x1000, 0x80 + c / 0x40 % 0x40, 0x80 + c % 0x40]
    else [0xF0 + c / 0x4_0000, 0x80 + c / 0x1000 % 0x40, 0x80 + c / 0x40 % 0x40, 0x80 + c % 0x40]
  }

  function Encode(text: seq<CodePoint>): Bytes {
    if text == [] then [] else EncodeOne(text[0]) + Encode(text[1..])
  }

  predicate Continues(b: Byte) {
    0x80 <= b < 0xC0
  }

  /** The payload of a lead byte and its continuation bytes. */
  function Value2(b0: int, b1: int): int {
    (b0 - 0xC0) * 0x40 + (b1 - 0x80)
  }

  function Value3(b0: int, b1: int, b2: int): int {
    (b0 - 0xE0) * 0x1000 + (b1 - 0x80) * 0x40 + (b2 - 0x80)
  }

  function Value4(b0: int, b1: int, b2: int, b3: int): int {
    (b0 - 0xF0) * 0x4_0000 + (b1 - 0x80) * 0x1000 + (b2 - 0x80) * 0x40 + (b3 - 0x80)
  }

  /** The first code point and its width; shortest forms only, no surrogates. */
  function DecodeOne(b: Bytes): (r: Option<(CodePoint, nat)>)
    requires b != []
    ensures r.Some? ==> 1 <= r.value.1 <= |b|
  {
    if b[0] < 0x80 then Some((b[0], 1))
    else if 0xC2 <= b[0] < 0xE0 && |b| >= 2 && Continues(b[1]) then
      Some((Value2(b[0], b[1]), 2))
    else if 0xE0 <= b[0] < 0xF0 && |b| >= 3 && Continues(b[1]) && Continues(b[2]) then
      var c := Value3(b[0], b[1], b[2]);
      if 0x800 <= c && !(0xD800 <= c < 0xE000) then Some((c, 3)) else None
    else if 0xF0 <= b[0] < 0xF5 && |b| >= 4 && Continues(b[1]) && Continues(b[2]) && Continues(b[3]) then
      var c := Value4(b[0], b[1], b[2], b[3]);
      if 0x1_0000 <= c < 0x11_0000 then Some((c, 4)) else None
    else None
  }

  /** Strict UTF-8; None stands for `UnicodeDecodeError`. */
  function Decode(b: Bytes): Option<seq<CodePoint>> {
    if b == [] then Some([])
    else
      match DecodeOne(b)
      case None => None
      case Some((c, width)) =>
        match Decode(b[width..])
        case None => None
        case Some(rest) => Some([c] + rest)
  }

  /** The `utf-8-sig` codec drops one leading byte-order mark. */
  function DecodeSig(b: Bytes): Option<seq<CodePoint>> {
    if MARK_BYTES <= b then Decode(b[3..]) else Decode(b)
  }

  lemma DecodeEncode2(c: CodePoint, tail: Bytes)
    requires 0x80 <= c < 0x800
    ensures DecodeOne(EncodeOne(c) + tail) == Some((c, 2))
  {
    var b := EncodeOne(c) + tail;
    var q, r := c / 0x40, c % 0x40;
    assert b[0] == 0xC0 + q && b[1] == 0x80 + r;
    assert c == q * 0x40 + r;
  }

  lemma Digits3(c: nat) returns (x: nat, y: nat, z: nat)
    ensures x == c / 0x1000 && y == c / 0x40 % 0x40 && z == c % 0x40
    ensures y < 0x40 && z < 0x40 && c == x * 0x1000 + y * 0x40 + z
  {
    x, y, z := c / 0x1000, c / 0x40 % 0x40, c % 0x40;
    assert c / 0x40 / 0x40 == x;
  }

  lemma DecodeEncode3(c: CodePoint, tail: Bytes)
    requires 0x800 <= c < 0x1_0000
    ensures DecodeOne(EncodeOne(c) + tail) == Some((c, 3))
  {
    var b := EncodeOne(c) + tail;
    var x, y, z := Digits3(c);
    assert b[0] == 0xE0 + x && b[1] == 0x80 + y && b[2] == 0x80 + z;
    assert Value3(b[0], b[1], b[2]) == c;
  }

  lemma DecodeEncode4(c: CodePoint, tail: Bytes)
    requires 0x1_0000 <= c
    ensures DecodeOne(EncodeOne(c) + tail) == Some((c, 4))
  {
    var b := EncodeOne(c) + tail;
    var x, y, z := Digits3(c);
    var w := x / 0x40;
    assert w == c / 0x4_0000 && x == w * 0x40 + x % 0x40;
    assert b[0] == 0xF0 + w && b[1] == 0x80 + x % 0x40 && b[2] == 0x80 + y && b[3] == 0x80 + z;
    assert Value4(b[0], b[1], b[2], b[3]) == c;
  }

  lemma DecodeEncodeOne(c: CodePoint, tail: Bytes)
    ensures DecodeOne(EncodeOne(c) + tail) == Some((c, |EncodeOne(c)|))
  {
    if c < 0x80 {
      assert (EncodeOne(c) + tail)[0] == c;
    } else if c < 0x800 {
      DecodeEncode2(c, tail);
    } else if c < 0x1_0000 {
      DecodeEncode3(c, tail);
    } else {
      DecodeEncode4(c, tail);
    }
  }

  lemma DecodeFirst(head: Bytes, tail: Bytes, c: CodePoint, rest: seq<CodePoint>)
    requires head != [] && DecodeOne(head + tail) == Some((c, |head|)) && Decode(tail) == Some(rest)
    ensures Decode(head + tail) == Some([c] + rest)
  {
    assert (head + tail)[|head|..] == tail;
  }

  /** Decoding what was encoded gives the text back. */
  lemma {:induction false} DecodeEncode(text: seq<CodePoint>)
    ensures Decode(Encode(text)) == Some(text)
  {
    if text != [] {
      var head, tail := EncodeOne(text[0]), Encode(text[1..]);
      DecodeEncodeOne(text[0], tail);
      DecodeEncode(text[1..]);
      DecodeFirst(head, tail, text[0], text[1..]);
      assert text == [text[0]] + text[1..];
    }
  }

  /** A two-byte sequence is the encoding of its value; likewise for three and four bytes. */
  lemma Encodes2(b0: Byte, b1: Byte)
    requires 0xC2 <= b0 < 0xE0 && Continues(b1)
    ensures 0x80 <= Value2(b0, b1) < 0x800 && EncodeOne(Value2(b0, b1)) == [b0, b1]
  {
    var c := Value2(b0, b1);
    assert c == (b0 - 0xC0) * 0x40 + (b1 - 0x80);
    assert c / 0x40 == b0 - 0xC0 && c % 0x40 == b1 - 0x80;
  }

  lemma Encodes3(b0: Byte, b1: Byte, b2: Byte)
    requires 0xE0 <= b0 < 0xF0 && Continues(b1) && Continues(b2)
    requires 0x800 <= Value3(b0, b1, b2) && !(0xD800 <= Value3(b0, b1, b2) < 0xE000)
    ensures EncodeOne(Value3(b0, b1, b2)) == [b0, b1, b2]
  {
    var c := Value3(b0, b1, b2);
    assert c % 0x40 == b2 - 0x80 && c / 0x40 == (b0 - 0xE0) * 0x40 + (b1 - 0x80);
    assert c / 0x40 % 0x40 == b1 - 0x80 && c / 0x1000 == b0 - 0xE0;
  }

  lemma Encodes4(b0: Byte, b1: Byte, b2: Byte, b3: Byte)
    requires 0xF0 <= b0 < 0xF5 && Continues(b1) && Continues(b2) && Continues(b3)
    requires 0x1_0000 <= Value4(b0, b1, b2, b3) < 0x11_0000
    ensures EncodeOne(Value4(b0, b1, b2, b3)) == [b0, b1, b2, b3]
  {
    var c := Value4(b0, b1, b2, b3);
    var top := (b0 - 0xF0) * 0x40 + (b1 - 0x80);
    var high := top * 0x40 + (b2 - 0x80);
    assert c == high * 0x40 + (b3 - 0x80);
    SixBits(high, b3 - 0x80);
    SixBits(top, b2 - 0x80);
    SixBits(b0 - 0xF0, b1 - 0x80);
    assert c / 0x1000 == c / 0x40 / 0x40 && c / 0x4_0000 == c / 0x1000 / 0x40;
  }

  lemma SixBits(high: int, low: int)
    requires 0 <= low < 0x40
    ensures (high * 0x40 + low) % 0x40 == low && (high * 0x40 + low) / 0x40 == high
  {
  }

  lemma EncodeDecodeOne(b: Bytes)
    requires b != [] && DecodeOne(b).Some?
    ensures var (c, width) := DecodeOne(b).value; EncodeOne(c) == b[..width]
  {
    if b[0] < 0x80 {
    } else if b[0] < 0xE0 {
      Encodes2(b[0], b[1]);
    } else if b[0] < 0xF0 {
      Encodes3(b[0], b[1], b[2]);
    } else {
      Encodes4(b[0], b[1], b[2], b[3]);
    }
  }

  /** Whatever decodes is the encoding of what it decodes to: no overlong form, no surrogate, nothing left over. */
  lemma {:induction false} EncodeDecode(b: Bytes)
    requires Decode(b).Some?
    ensures Encode(Decode(b).value) == b
  {
    if b != [] {
      var c, tail := DecodeNext(b);
      EncodeDecode(tail);
      EncodeNext(c, Decode(tail).value);
    }
  }

  /** The first code point and the bytes behind its encoding. */
  lemma DecodeNext(b: Bytes) returns (c: CodePoint, tail: Bytes)
    requires b != [] && Decode(b).Some?
    ensures |tail| < |b| && b == EncodeOne(c) + tail
    ensures Decode(tail).Some? && Decode(b).value == [c] + Decode(tail).value
  {
    var first := DecodeOne(b).value;
    DecodeUnfolds(b, first.0, first.1);
    FirstEncoded(b, first.0, first.1);
    c, tail := first.0, b[first.1..];
  }

  lemma FirstEncoded(b: Bytes, c: CodePoint, width: nat)
    requires b != [] && DecodeOne(b) == Some((c, width)) && width <= |b|
    ensures b == EncodeOne(c) + b[width..]
  {
    EncodeDecodeOne(b);
    assert EncodeOne(c) == b[..width];
  }

  lemma DecodeUnfolds(b: Bytes, c: CodePoint, width: nat)
    requires b != [] && Decode(b).Some? && DecodeOne(b) == Some((c, width))
    ensures 0 < width <= |b| && Decode(b[width..]).Some? && Decode(b).value == [c] + Decode(b[width..]).value
  {
  }

  lemma EncodeNext(c: CodePoint, rest: seq<CodePoint>)
    ensures Encode([c] + rest) == EncodeOne(c) + Encode(rest)
  {
    assert ([c] + rest)[1..] == rest;
  }

  lemma EncodeMark()
    ensures EncodeOne(MARK) == MARK_BYTES
  {
  }

  lemma DecodeMark(b: Bytes)
    requires MARK_BYTES <= b
    ensures DecodeOne(b) == Some((MARK, 3))
  {
    assert b[0] == MARK_BYTES[0] == 0xEF && b[1] == MARK_BYTES[1] == 0xBB && b[2] == MARK_BYTES[2] == 0xBF;
    assert Value3(0xEF, 0xBB, 0xBF) == MARK;
  }

  /** The encoded text starts with the mark's bytes exactly when the text starts with the mark. */
  lemma MarkShows(text: seq<CodePoint>)
    ensures MARK_BYTES <= Encode(text) <==> text != [] && text[0] == MARK
    ensures text != [] && text[0] == MARK ==> Encode(text)[3..] == Encode(text[1..])
  {
    if text != [] {
      var head, tail := EncodeOne(text[0]), Encode(text[1..]);
      assert Encode(text) == head + tail;
      EncodeMark();
      if MARK_BYTES <= Encode(text) {
        DecodeMark(head + tail);
        DecodeEncodeOne(text[0], tail);
      }
      assert (head + tail)[|head|..] == tail;
    }
  }

  lemma DecodeSigEncode(text: seq<CodePoint>)
    ensures DecodeSig(Encode(text)) == Some(if text != [] && text[0] == MARK then text[1..] else text)
  {
    MarkShows(text);
    DecodeEncode(text);
    if text != [] {
      DecodeEncode(text[1..]);
    }
  }

  // ---------------------------------------------------------------- line endings

  /** `text.replace("\\r\\n", "\\n")` */
  function ReplacePairs(t: seq<CodePoint>): (r: seq<CodePoint>)
    ensures |r| <= |t|
  {
    if |t| >= 2 && t[0] == CR && t[1] == LF then [LF] + ReplacePairs(t[2..])
    else if t == [] then []
    else [t[0]] + ReplacePairs(t[1..])
  }

  /** `text.replace("\\r", "\\n")` */
  function ReplaceSingles(t: seq<CodePoint>): (r: seq<CodePoint>)
    ensures |r| == |t| && forall i :: 0 <= i < |t| ==> r[i] == if t[i] == CR then LF else t[i]
  {
    seq(|t|, i requires 0 <= i < |t| => if t[i] == CR then LF else t[i])
  }

  function NormalizeText(t: seq<CodePoint>): seq<CodePoint> {
    RStrip(ReplaceSingles(ReplacePairs(t)), LF) + [LF]
  }

  /** The forms of a text whose line ends are LF. */
  function WithPairs(t: seq<CodePoint>): seq<CodePoint> {
    if t == [] then [] else (if t[0] == LF then [CR, LF] else [t[0]]) + WithPairs(t[1..])
  }

  function WithSingles(t: seq<CodePoint>): (r: seq<CodePoint>)
    ensures |r| == |t| && forall i :: 0 <= i < |t| ==> r[i] == if t[i] == LF then CR else t[i]
  {
    seq(|t|, i requires 0 <= i < |t| => if t[i] == LF then CR else t[i])
  }

  /** No carriage return, and exactly one line feed at the end. */
  ghost predicate Normal(t: seq<CodePoint>) {
    CR !in t && t != [] && t[|t| - 1] == LF && (|t| >= 2 ==> t[|t| - 2] != LF)
  }

  lemma NormalizedIsNormal(t: seq<CodePoint>)
    ensures Normal(NormalizeText(t))
  {
    var s := ReplaceSingles(ReplacePairs(t));
    var r := RStrip(s, LF);
    forall x | x in r ensures x != CR {
      var i :| 0 <= i < |r| && r[i] == x;
      assert s[i] == x;
    }
  }

  lemma {:induction false} PairsIdentity(t: seq<CodePoint>)
    requires CR !in t
    ensures ReplacePairs(t) == t
  {
    if t != [] {
      assert t == [t[0]] + t[1..] && t[0] in t;
      PairsIdentity(t[1..]);
    }
  }

  /** Normalisation leaves normal text alone. */
  lemma NormalIsFixed(t: seq<CodePoint>)
    requires Normal(t)
    ensures NormalizeText(t) == t
  {
    PairsIdentity(t);
    assert ReplaceSingles(t) == t by {
      assert forall i :: 0 <= i < |t| ==> t[i] in t;
    }
    var body := t[..|t| - 1];
    assert RStrip(t, LF) == RStrip(body, LF);
    RStripIdentity(body, LF);
  }

  lemma {:induction false} PairsUndone(t: seq<CodePoint>)
    requires CR !in t
    ensures ReplacePairs(WithPairs(t)) == t
  {
    if t != [] {
      assert t == [t[0]] + t[1..] && t[0] in t;
      PairsUndone(t[1..]);
      var rest := WithPairs(t[1..]);
      if t[0] == LF {
        assert ([CR, LF] + rest)[2..] == rest;
      } else {
        assert ([t[0]] + rest)[1..] == rest;
      }
    }
  }

  lemma {:induction false} NoPairs(t: seq<CodePoint>)
    requires LF !in t
    ensures ReplacePairs(t) == t
  {
    if t != [] {
      assert t == [t[0]] + t[1..];
      assert |t| >= 2 ==> t[1] in t;
      NoPairs(t[1..]);
    }
  }

  lemma SinglesIdentity(t: seq<CodePoint>)
    requires CR !in t
    ensures ReplaceSingles(t) == t
  {
    forall i | 0 <= i < |t| ensures ReplaceSingles(t)[i] == t[i] {
      assert t[i] in t;
    }
  }

  lemma SinglesUndone(t: seq<CodePoint>)
    requires CR !in t
    ensures ReplacePairs(WithSingles(t)) == WithSingles(t)
    ensures ReplaceSingles(WithSingles(t)) == t
  {
    var singles := WithSingles(t);
    forall i | 0 <= i < |t| ensures singles[i] != LF && ReplaceSingles(singles)[i] == t[i] {
      assert t[i] in t;
    }
    NoPairs(singles);
  }

  /** The LF, CRLF and CR forms of a text normalise alike. */
  lemma FormsAgree(t: seq<CodePoint>)
    requires CR !in t
    ensures NormalizeText(WithPairs(t)) == NormalizeText(t) == NormalizeText(WithSingles(t))
  {
    PairsIdentity(t);
    PairsUndone(t);
    SinglesIdentity(t);
    SinglesUndone(t);
  }

  // ---------------------------------------------------------------- normalize_content

  const TEXT_TYPES: set<string> := {"text/html", "text/css", "application/javascript", "application/json", "text/plain"}

  /** `normalize_content`; None when a text source is not UTF-8. */
  function NormalizeContent(mediaType: string, content: Bytes): Option<Bytes> {
    if mediaType !in TEXT_TYPES then Some(content)
    else
      match DecodeSig(content)
      case None => None
      case Some(text) => Some(Encode(NormalizeText(text)))
  }

  lemma {:induction false} FirstSurvives(t: seq<CodePoint>)
    requires t != []
    ensures t[0] != CR && t[0] != LF ==> NormalizeText(t)[0] == t[0]
    ensures NormalizeText(t)[0] == MARK ==> t[0] == MARK
  {
    var s := ReplaceSingles(ReplacePairs(t));
    assert s != [] && s[0] == if t[0] == CR then LF else t[0];
    var r := RStrip(s, LF);
    assert r != [] ==> r[0] == s[0];
    assert r == [] ==> s[0] == LF;
  }

  lemma NormalizeShrinks(t: seq<CodePoint>)
    requires t != [] && t[|t| - 1] == LF && CR !in t
    ensures |NormalizeText(t)| <= |t|
  {
    var u := ReplaceSingles(t);
    PairsIdentity(t);
    StripShrinks(u);
  }

  lemma StripShrinks(u: seq<CodePoint>)
    requires u != [] && u[|u| - 1] == LF
    ensures |RStrip(u, LF) + [LF]| <= |u|
  {
    RStripShortens(u, LF);
  }

  /**
    Normalising twice equals normalising once if and only if the text does not start with a
    byte-order mark once the codec has dropped the first one.
   */
  lemma NormalizeIdempotent(mediaType: string, content: Bytes)
    requires mediaType in TEXT_TYPES && DecodeSig(content).Some?
    ensures var text := DecodeSig(content).value;
            var once := NormalizeContent(mediaType, content).value;
            NormalizeContent(mediaType, once) == Some(once) <==> !(text != [] && text[0] == MARK)
  {
    var text := DecodeSig(content).value;
    var t := NormalizeText(text);
    NormalizedIsNormal(text);
    DecodeSigEncode(t);
    if text != [] {
      FirstSurvives(text);
    }
    if text != [] && text[0] == MARK {
      assert t[0] == MARK;
      var rest := t[1..];
      assert rest != [] && rest[|rest| - 1] == LF;
      NormalizeShrinks(rest);
      DecodeEncode(t);
      DecodeEncode(NormalizeText(rest));
    } else {
      NormalIsFixed(t);
    }
  }

  /** The bytes of normalised text decode to text without a carriage return and with one final line feed. */
  lemma NormalizedBytes(mediaType: string, content: Bytes)
    requires mediaType in TEXT_TYPES && NormalizeContent(mediaType, content).Some?
    ensures var once := NormalizeContent(mediaType, content).value;
            Decode(once).Some? && Normal(Decode(once).value) &&
              Decode(once) == Some(NormalizeText(DecodeSig(content).value))
  {
    var text := DecodeSig(content).value;
    NormalizedIsNormal(text);
    DecodeEncode(NormalizeText(text));
  }
}
