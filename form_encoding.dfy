/** The application/x-www-form-urlencoded serializer (section 5.2 of the
    WHATWG URL Standard) as Ruby's `URI.encode_www_form` writes it: each
    string's UTF-8 bytes, with `*`, `-`, `.`, `_`, digits and ASCII letters
    kept, space written as `+`, and every other byte as `%XX` in upper-case
    hex; each pair as `key=value`, the pairs joined by `&`. */
module FormEncoding {
  import opened Outcomes

  type Byte = b: int | 0 <= b < 256

  /** The UTF-8 encoding of one character (a Unicode scalar value). */
  function Utf8Char(c: char): (bs: seq<Byte>)
    ensures 1 <= |bs| <= 4
    ensures c as int < 0x80 ==> bs == [c as int]
    ensures c as int >= 0x80 ==> forall i | 0 <= i < |bs| :: bs[i] >= 0x80
  {
    var cp := c as int;
    if cp < 0x80 then [cp]
    else if cp < 0x800 then [0xC0 + cp / 64, 0x80 + cp % 64]
    else if cp < 0x10000 then [0xE0 + cp / 4096, 0x80 + (cp / 64) % 64, 0x80 + cp % 64]
    else [0xF0 + cp / 262144, 0x80 + (cp / 4096) % 64, 0x80 + (cp / 64) % 64, 0x80 + cp % 64]
  }

  /** The UTF-8 bytes of a string. */
  function Utf8(s: string): (bs: seq<Byte>)
    ensures |bs| >= |s|
  {
    if s == [] then [] else Utf8Char(s[0]) + Utf8(s[1..])
  }

  /** The bytes the serializer writes as themselves: `*-._`, digits, letters. */
  predicate Unreserved(b: int)
  {
    b == 0x2A || b == 0x2D || b == 0x2E || b == 0x5F ||
    (0x30 <= b <= 0x39) || (0x41 <= b <= 0x5A) || (0x61 <= b <= 0x7A)
  }

  /** Upper-case hex digit. */
  function HexDigit(d: nat): (c: char)
    requires d < 16
    ensures IsHex(c) && HexValue(c) == d
  {
    if d < 10 then ('0' as int + d) as char else ('A' as int + d - 10) as char
  }

  predicate IsHex(c: char)
  {
    ('0' <= c <= '9') || ('A' <= c <= 'F') || ('a' <= c <= 'f')
  }

  function HexValue(c: char): (d: nat)
    requires IsHex(c)
    ensures d < 16
  {
    if '0' <= c <= '9' then c as int - '0' as int
    else if 'A' <= c <= 'F' then c as int - 'A' as int + 10
    else c as int - 'a' as int + 10
  }

  /** The characters an encoded component is made of. */
  predicate IsEncodedChar(c: char)
  {
    Unreserved(c as int) || c == '+' || c == '%'
  }

  /** One byte, encoded. */
  function EncodeByte(b: Byte): (s: string)
    ensures 1 <= |s| <= 3
    ensures forall i | 0 <= i < |s| :: IsEncodedChar(s[i])
  {
    if Unreserved(b) then [b as char]
    else if b == 0x20 then "+"
    else ['%', HexDigit(b / 16), HexDigit(b % 16)]
  }

  /** A byte string, encoded byte by byte. */
  function EncodeBytes(bs: seq<Byte>): (s: string)
    ensures forall i | 0 <= i < |s| :: IsEncodedChar(s[i])
  {
    if bs == [] then []
    else
      var head, tail := EncodeByte(bs[0]), EncodeBytes(bs[1..]);
      assert forall i | 0 <= i < |head + tail| :: (head + tail)[i] == if i < |head| then head[i] else tail[i - |head|];
      head + tail
  }

  /** `URI.encode_www_form_component`. */
  function EncodeComponent(s: string): (r: string)
    ensures forall i | 0 <= i < |r| :: IsEncodedChar(r[i])
  {
    EncodeBytes(Utf8(s))
  }

  /** The component decoder: `+` is a space, `%XX` a byte, an unreserved
      character itself; anything else is not an encoded component. */
  function DecodeComponent(s: string): Option<seq<Byte>>
    decreases |s|
  {
    if s == [] then Some([])
    else if s[0] == '+' then Prepend(0x20, DecodeComponent(s[1..]))
    else if s[0] == '%' then
      if |s| >= 3 && IsHex(s[1]) && IsHex(s[2]) then
        Prepend(HexValue(s[1]) * 16 + HexValue(s[2]), DecodeComponent(s[3..]))
      else None
    else if Unreserved(s[0] as int) then Prepend(s[0] as int, DecodeComponent(s[1..]))
    else None
  }

  function Prepend(b: Byte, rest: Option<seq<Byte>>): Option<seq<Byte>>
  {
    if rest.None? then None else Some([b] + rest.value)
  }

  /** Decoding an encoded byte followed by more text decodes the byte, then
      the rest. */
  lemma DecodeByte(b: Byte, rest: string)
    ensures DecodeComponent(EncodeByte(b) + rest) == Prepend(b, DecodeComponent(rest))
  {
    var s := EncodeByte(b) + rest;
    if Unreserved(b) {
      assert s[1..] == rest;
    } else if b == 0x20 {
      assert s[1..] == rest;
    } else {
      assert s[3..] == rest;
      assert HexValue(s[1]) * 16 + HexValue(s[2]) == b;
    }
  }

  /** Decoding undoes encoding: no byte is lost or changed. */
  lemma {:induction false} DecodeEncodeBytes(bs: seq<Byte>)
    ensures DecodeComponent(EncodeBytes(bs)) == Some(bs)
  {
    if bs != [] {
      DecodeEncodeBytes(bs[1..]);
      DecodeByte(bs[0], EncodeBytes(bs[1..]));
      assert [bs[0]] + bs[1..] == bs;
    }
  }

  /** `encode_www_form_component` keeps the UTF-8 bytes of its input. */
  lemma ComponentRoundTrip(s: string)
    ensures DecodeComponent(EncodeComponent(s)) == Some(Utf8(s))
  {
    DecodeEncodeBytes(Utf8(s));
  }

  /** Every character of `s` is written as itself. */
  predicate AllUnreserved(s: string)
  {
    forall i | 0 <= i < |s| :: Unreserved(s[i] as int)
  }

  /** A string of unreserved ASCII characters encodes as itself. */
  lemma {:induction false} EncodeUnreserved(s: string)
    requires AllUnreserved(s)
    ensures EncodeComponent(s) == s
  {
    if s != [] {
      EncodeUnreserved(s[1..]);
      assert Utf8(s) == [s[0] as int] + Utf8(s[1..]);
      assert Utf8(s)[1..] == Utf8(s[1..]);
      assert s == [s[0]] + s[1..];
    }
  }

  /** UTF-8 encodes a concatenation piece by piece. */
  lemma {:induction false} Utf8Concat(a: string, b: string)
    ensures Utf8(a + b) == Utf8(a) + Utf8(b)
  {
    if a != [] {
      Utf8Concat(a[1..], b);
      assert (a + b)[1..] == a[1..] + b;
    } else {
      assert a + b == b;
    }
  }

  /** Bytes encode one at a time, so a concatenation encodes piece by piece. */
  lemma {:induction false} EncodeBytesConcat(a: seq<Byte>, b: seq<Byte>)
    ensures EncodeBytes(a + b) == EncodeBytes(a) + EncodeBytes(b)
  {
    if a != [] {
      EncodeBytesConcat(a[1..], b);
      assert (a + b)[1..] == a[1..] + b;
    } else {
      assert a + b == b;
    }
  }

  /** `encode_www_form_component` works character by character. */
  lemma EncodeConcat(a: string, b: string)
    ensures EncodeComponent(a + b) == EncodeComponent(a) + EncodeComponent(b)
  {
    Utf8Concat(a, b);
    EncodeBytesConcat(Utf8(a), Utf8(b));
  }

  /** A command of the form `name[value]`, with name and value made of
      unreserved characters, is sent with its brackets as `%5B` and `%5D`. */
  lemma EncodeBracketed(name: string, value: string)
    requires AllUnreserved(name)
    requires AllUnreserved(value)
    ensures EncodeComponent(name + "[" + value + "]") == name + "%5B" + value + "%5D"
  {
    EncodeConcat(name + "[" + value, "]");
    EncodeConcat(name + "[", value);
    EncodeConcat(name, "[");
    EncodeUnreserved(name);
    EncodeUnreserved(value);
    BracketsEncoded();
  }

  /** The brackets are reserved: `[` is sent as `%5B` and `]` as `%5D`. */
  lemma BracketsEncoded()
    ensures EncodeComponent("[") == "%5B" && EncodeComponent("]") == "%5D"
  {
    assert EncodeComponent("[") == "%5B";
  }

  /** `key=value`. */
  function EncodePair(p: (string, string)): string
  {
    EncodeComponent(p.0) + "=" + EncodeComponent(p.1)
  }

  /** A pair of unreserved key and command is sent as written. */
  lemma EncodePlainPair(k: string, c: string)
    requires AllUnreserved(k)
    requires AllUnreserved(c)
    ensures EncodePair((k, c)) == k + "=" + c
  {
    EncodeUnreserved(k);
    EncodeUnreserved(c);
  }

  /** A pair whose command is `name[value]` is sent with the brackets
      percent-encoded. */
  lemma EncodeBracketedPair(k: string, name: string, value: string)
    requires AllUnreserved(k)
    requires AllUnreserved(name)
    requires AllUnreserved(value)
    ensures EncodePair((k, name + "[" + value + "]")) == k + "=" + name + "%5B" + value + "%5D"
  {
    EncodeUnreserved(k);
    EncodeBracketed(name, value);
  }

  /** `URI.encode_www_form`: the encoded pairs joined by `&`. */
  function EncodeForm(ps: seq<(string, string)>): string
  {
    if ps == [] then ""
    else if |ps| == 1 then EncodePair(ps[0])
    else EncodePair(ps[0]) + "&" + EncodeForm(ps[1..])
  }

  /** Each pair, encoded as `key=value`. */
  function EncodedPieces(ps: seq<(string, string)>): (r: seq<string>)
    ensures |r| == |ps|
  {
    if ps == [] then [] else [EncodePair(ps[0])] + EncodedPieces(ps[1..])
  }

  /** Each pair as the UTF-8 bytes of its key and value. */
  function Utf8Pairs(ps: seq<(string, string)>): (r: seq<(seq<Byte>, seq<Byte>)>)
    ensures |r| == |ps|
    ensures forall i | 0 <= i < |ps| :: r[i] == (Utf8(ps[i].0), Utf8(ps[i].1))
  {
    if ps == [] then [] else [(Utf8(ps[0].0), Utf8(ps[0].1))] + Utf8Pairs(ps[1..])
  }

  /** The text before the first `sep` of `s`, or all of `s`. */
  function Before(s: string, sep: char): (r: string)
    ensures |r| <= |s| && r == s[..|r|]
    ensures forall i | 0 <= i < |r| :: r[i] != sep
    ensures |r| < |s| ==> s[|r|] == sep
  {
    if s == [] || s[0] == sep then [] else [s[0]] + Before(s[1..], sep)
  }

  /** `s` split at each `sep`. */
  function Split(s: string, sep: char): (r: seq<string>)
    ensures |r| >= 1
    decreases |s|
  {
    var head := Before(s, sep);
    if |head| == |s| then [s] else [head] + Split(s[|head| + 1..], sep)
  }

  /** A decoded query: each `key=value` piece as its decoded key and value. */
  function DecodePairs(pieces: seq<string>): Option<seq<(seq<Byte>, seq<Byte>)>>
  {
    if pieces == [] then Some([])
    else
      var k := Before(pieces[0], '=');
      if |k| == |pieces[0]| then None
      else
        var key, value := DecodeComponent(k), DecodeComponent(pieces[0][|k| + 1..]);
        var rest := DecodePairs(pieces[1..]);
        if key.None? || value.None? || rest.None? then None
        else Some([(key.value, value.value)] + rest.value)
  }

  /** The query decoder: split at `&`, then each piece at its first `=`. */
  function DecodeForm(q: string): Option<seq<(seq<Byte>, seq<Byte>)>>
  {
    DecodePairs(Split(q, '&'))
  }

  /** The text before a separator that does not occur in it is all of it. */
  lemma {:induction false} BeforeSeparator(a: string, sep: char, rest: string)
    requires forall i | 0 <= i < |a| :: a[i] != sep
    ensures Before(a + [sep] + rest, sep) == a
    ensures Before(a, sep) == a
  {
    if a != [] {
      BeforeSeparator(a[1..], sep, rest);
      assert (a + [sep] + rest)[1..] == a[1..] + [sep] + rest;
    }
  }

  /** An encoded pair holds no `&`. */
  lemma PairHasNoAmpersand(p: (string, string))
    ensures forall i | 0 <= i < |EncodePair(p)| :: EncodePair(p)[i] != '&'
  {
    var e := EncodePair(p);
    assert forall i | 0 <= i < |e| :: IsEncodedChar(e[i]) || e[i] == '=';
  }

  /** Splitting at the first separator peels off the text before it. */
  lemma SplitFirst(a: string, sep: char, rest: string)
    requires forall i | 0 <= i < |a| :: a[i] != sep
    ensures Split(a + [sep] + rest, sep) == [a] + Split(rest, sep)
  {
    BeforeSeparator(a, sep, rest);
    assert (a + [sep] + rest)[|a| + 1..] == rest;
  }

  /** Splitting a joined query at `&` gives back its encoded pairs. */
  lemma {:induction false} SplitForm(ps: seq<(string, string)>)
    requires ps != []
    ensures Split(EncodeForm(ps), '&') == EncodedPieces(ps)
  {
    var e := EncodePair(ps[0]);
    PairHasNoAmpersand(ps[0]);
    if |ps| == 1 {
      BeforeSeparator(e, '&', "");
    } else {
      SplitForm(ps[1..]);
      SplitFirst(e, '&', EncodeForm(ps[1..]));
    }
  }

  /** Each encoded pair splits at its `=` into its encoded key and value. */
  lemma PairRoundTrip(p: (string, string))
    ensures var piece := EncodePair(p);
            var k := Before(piece, '=');
            |k| < |piece| && k == EncodeComponent(p.0) && piece[|k| + 1..] == EncodeComponent(p.1)
  {
    var ek := EncodeComponent(p.0);
    BeforeSeparator(ek, '=', EncodeComponent(p.1));
    assert EncodePair(p)[|ek| + 1..] == EncodeComponent(p.1);
  }

  /** Decoding the encoded pieces gives each pair's UTF-8 key and value. */
  lemma {:induction false} DecodeEncodedPairs(ps: seq<(string, string)>)
    ensures DecodePairs(EncodedPieces(ps)) ==
            Some(Utf8Pairs(ps))
  {
    if ps != [] {
      PairRoundTrip(ps[0]);
      ComponentRoundTrip(ps[0].0);
      ComponentRoundTrip(ps[0].1);
      DecodeEncodedPairs(ps[1..]);
    }
  }

  /** `encode_www_form` can be decoded: the query gives back every pair, in
      order, as the UTF-8 bytes of its key and value. */
  lemma FormRoundTrip(ps: seq<(string, string)>)
    requires ps != []
    ensures DecodeForm(EncodeForm(ps)) == Some(Utf8Pairs(ps))
  {
    SplitForm(ps);
    DecodeEncodedPairs(ps);
  }
}
