/** JavaScript text and what UTF-8 encoding followed by fatal decoding keeps of it. */
module Text {
  import opened Options

  /** One UTF-16 code unit. */
  type Unit = x: int | 0 <= x < 0x1_0000

  type Text = seq<Unit>

  const BOM: Unit := 0xFEFF
  const REPLACEMENT: Unit := 0xFFFD

  /**
    A byte sequence, described by how a fatal UTF-8 decoder reads it: an optional byte order
    mark followed by text, or malformed input.  Text without a mark never starts with one.
    */
  datatype Bytes = Utf8(marked: bool, text: Text) | Malformed(raw: seq<nat>)

  const NO_BYTES := Utf8(false, [])

  predicate HighSurrogate(u: Unit) { 0xD800 <= u < 0xDC00 }

  predicate LowSurrogate(u: Unit) { 0xDC00 <= u < 0xE000 }

  predicate PairAt(s: Text) {
    |s| >= 2 && HighSurrogate(s[0]) && LowSurrogate(s[1])
  }

  /** Every surrogate is part of a pair. */
  predicate WellFormed(s: Text) {
    s == [] ||
    if PairAt(s) then WellFormed(s[2..])
    else !HighSurrogate(s[0]) && !LowSurrogate(s[0]) && WellFormed(s[1..])
  }

  /** The text an encoder writes: lone surrogates become the replacement character. */
  function ToWellFormed(s: Text): Text {
    if s == [] then []
    else if PairAt(s) then s[..2] + ToWellFormed(s[2..])
    else [if HighSurrogate(s[0]) || LowSurrogate(s[0]) then REPLACEMENT else s[0]] + ToWellFormed(s[1..])
  }

  function Encode(s: Text): Bytes {
    var t := ToWellFormed(s);
    if t != [] && t[0] == BOM then Utf8(true, t[1..]) else Utf8(false, t)
  }

  /** A fatal decoder fails on malformed input and consumes a leading byte order mark. */
  function Decode(b: Bytes): Option<Text> {
    match b
    case Utf8(_, text) => Some(text)
    case Malformed(_) => None
  }

  lemma {:induction false} KeepsExactlyWellFormed(s: Text)
    ensures |ToWellFormed(s)| == |s|
    ensures ToWellFormed(s) == s <==> WellFormed(s)
    ensures s != [] && ToWellFormed(s)[0] == BOM <==> s != [] && s[0] == BOM
  {
    if s != [] {
      if PairAt(s) {
        KeepsExactlyWellFormed(s[2..]);
        assert s == s[..2] + s[2..];
        assert ToWellFormed(s)[2..] == ToWellFormed(s[2..]);
      } else {
        KeepsExactlyWellFormed(s[1..]);
        assert s == [s[0]] + s[1..];
        assert ToWellFormed(s)[1..] == ToWellFormed(s[1..]);
      }
    }
  }

  /** A high surrogate not followed by a low one, or a low surrogate not preceded by a high one. */
  predicate Lone(s: Text, i: nat)
    requires i < |s|
  {
    || (0xD800 <= s[i] <= 0xDBFF && !(i + 1 < |s| && 0xDC00 <= s[i + 1] <= 0xDFFF))
    || (0xDC00 <= s[i] <= 0xDFFF && !(i > 0 && 0xD800 <= s[i - 1] <= 0xDBFF))
  }

  /** Exactly the lone surrogates are replaced, each where it stands; a text without any is well formed. */
  lemma {:induction false} ReplacesLone(s: Text)
    ensures |ToWellFormed(s)| == |s|
    ensures forall i :: 0 <= i < |s| ==> ToWellFormed(s)[i] == if Lone(s, i) then 0xFFFD else s[i]
    ensures WellFormed(s) <==> forall i :: 0 <= i < |s| ==> !Lone(s, i)
  {
    if s != [] {
      var n := if PairAt(s) then 2 else 1;
      ReplacesLone(s[n..]);
      assert forall i :: 0 <= i < |s| - n ==> Lone(s[n..], i) == Lone(s, i + n);
      assert forall i :: n <= i < |s| ==> Lone(s, i) == Lone(s[n..], i - n);
    }
  }

  /** What reading back an encoded text gives: without its leading mark and with its lone surrogates replaced. */
  lemma DecodedEncoding(s: Text)
    ensures var t, skipped := Decode(Encode(s)), if s != [] && s[0] == 0xFEFF then 1 else 0;
            && t.Some? && |t.value| == |s| - skipped
            && forall i :: 0 <= i < |t.value| ==> t.value[i] == if Lone(s, i + skipped) then 0xFFFD else s[i + skipped]
  {
    ReplacesLone(s);
    KeepsExactlyWellFormed(s);
  }

  /** No lone surrogate and no leading byte order mark. */
  predicate Encodable(s: Text) {
    WellFormed(s) && (s == [] || s[0] != BOM)
  }

  /** Encoding then decoding returns the text exactly when it has no lone surrogate and no leading mark. */
  lemma {:induction false} RoundTrip(s: Text)
    ensures Decode(Encode(s)) == Some(s) <==> Encodable(s)
  {
    KeepsExactlyWellFormed(s);
  }
}
