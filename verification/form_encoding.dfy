/**
 `URLSearchParams.prototype.toString`: the application/x-www-form-urlencoded
 serializer of section 5.2 of the WHATWG URL Standard, with the matching
 parser it is designed to be read back by.

 Serializing encodes each name and value in UTF-8, keeps ASCII letters,
 digits and `*-._`, writes a space as `+` and every other byte as `%XX`
 (upper-case hexadecimal), joins each name to its value with `=` and the
 pairs with `&`.
 */
module FormEncoding {
  import opened Wrappers
  import opened Text
  import Utf8

  type Byte = Utf8.Byte

  /** The bytes written as themselves: ASCII letters, digits and `*-._`. */
  predicate IsUnreserved(b: Byte) {
    || (0x30 <= b <= 0x39) || (0x41 <= b <= 0x5A) || (0x61 <= b <= 0x7A)
    || b == 0x2A || b == 0x2D || b == 0x2E || b == 0x5F
  }

  /** The upper-case hexadecimal digit of `n`. */
  function HexDigit(n: int): (c: char)
    requires 0 <= n < 16
    ensures HexValue(c) == Some(n)
  {
    if n < 10 then ('0' as int + n) as char else ('A' as int + n - 10) as char
  }

  /** The value of a hexadecimal digit of either case. */
  function HexValue(c: char): (v: Option<int>)
    ensures v.Some? ==> 0 <= v.value < 16
  {
    if '0' <= c <= '9' then Some(c as int - '0' as int)
    else if 'A' <= c <= 'F' then Some(c as int - 'A' as int + 10)
    else if 'a' <= c <= 'f' then Some(c as int - 'a' as int + 10)
    else None
  }

  /** The characters a serialized name or value is made of. */
  predicate IsFormChar(c: char) {
    c == '+' || c == '%' || (c as int < 0x80 && IsUnreserved(c as int))
  }

  /** One byte as serialized. */
  function EncodeByte(b: Byte): (s: string)
    ensures 1 <= |s| <= 3
    ensures forall i :: 0 <= i < |s| ==> IsFormChar(s[i])
  {
    if b == 0x20 then "+"
    else if IsUnreserved(b) then [b as char]
    else ['%', HexDigit(b / 16), HexDigit(b % 16)]
  }

  function EncodeBytes(bs: seq<Byte>): (s: string)
    ensures forall i :: 0 <= i < |s| ==> IsFormChar(s[i])
  {
    if |bs| == 0 then ""
    else
      var head := EncodeByte(bs[0]);
      var tail := EncodeBytes(bs[1..]);
      assert forall i :: |head| <= i < |head| + |tail| ==> (head + tail)[i] == tail[i - |head|];
      head + tail
  }

  /** A name or value as serialized. */
  function Encode(s: string): (e: string)
    ensures forall i :: 0 <= i < |e| ==> IsFormChar(e[i])
  {
    EncodeBytes(Utf8.Encode(s))
  }

  /**
   The bytes a serialized name or value stands for: `+` is a space, `%`
   followed by two hexadecimal digits is that byte, any other character
   (a `%` without two digits included) stands for its own UTF-8 bytes.
   */
  function DecodeBytes(e: string): seq<Byte>
    decreases |e|
  {
    if |e| == 0 then []
    else if e[0] == '+' then [0x20] + DecodeBytes(e[1..])
    else if e[0] == '%' && |e| >= 3 && HexValue(e[1]).Some? && HexValue(e[2]).Some? then
      [HexValue(e[1]).value * 16 + HexValue(e[2]).value] + DecodeBytes(e[3..])
    else Utf8.EncodeChar(e[0]) + DecodeBytes(e[1..])
  }

  /** A name or value read back; `None` when its bytes are not UTF-8. */
  function Decode(e: string): Option<string> {
    Utf8.Decode(DecodeBytes(e))
  }

  /** Reading back one serialized byte, followed by anything, gives the byte first. */
  lemma DecodeEncodeByte(b: Byte, rest: string)
    ensures DecodeBytes(EncodeByte(b) + rest) == [b] + DecodeBytes(rest)
  {
    var e := EncodeByte(b) + rest;
    if b == 0x20 {
      assert e[1..] == rest;
    } else if IsUnreserved(b) {
      assert e[1..] == rest;
      assert e[0] == b as char;
    } else {
      assert e[3..] == rest;
      assert b == (b / 16) * 16 + b % 16;
    }
  }

  lemma {:induction false} DecodeEncodeBytes(bs: seq<Byte>)
    ensures DecodeBytes(EncodeBytes(bs)) == bs
  {
    if |bs| > 0 {
      DecodeEncodeByte(bs[0], EncodeBytes(bs[1..]));
      DecodeEncodeBytes(bs[1..]);
      assert bs == [bs[0]] + bs[1..];
    }
  }

  /** Reading back a serialized name or value gives it back. */
  lemma DecodeEncode(s: string)
    ensures Decode(Encode(s)) == Some(s)
  {
    DecodeEncodeBytes(Utf8.Encode(s));
    Utf8.DecodeEncode(s);
  }

  // ---------------------------------------------------------------------
  // Name-value lists
  // ---------------------------------------------------------------------

  /** A query parameter: a name and its value. */
  type Param = (string, string)

  function EncodePair(p: Param): (e: string)
    ensures '&' !in e && '=' in e
  {
    var name := Encode(p.0);
    var value := Encode(p.1);
    assert '&' !in name && '&' !in value && '=' !in name && '=' !in value by {
      assert forall i :: 0 <= i < |name| ==> IsFormChar(name[i]);
      assert forall i :: 0 <= i < |value| ==> IsFormChar(value[i]);
    }
    var e := name + "=" + value;
    assert e[|name|] == '=';
    e
  }

  /** `params.toString()`. */
  function Serialize(params: seq<Param>): string {
    Join(EncodedPairs(params), "&")
  }

  function EncodedPairs(params: seq<Param>): (es: seq<string>)
    ensures |es| == |params|
    ensures forall i :: 0 <= i < |params| ==> es[i] == EncodePair(params[i])
  {
    seq(|params|, i requires 0 <= i < |params| => EncodePair(params[i]))
  }

  /** The position of the first `c` in `s`. */
  function IndexOfChar(s: string, c: char): (i: Option<nat>)
    ensures i.Some? ==> i.value < |s| && s[i.value] == c && c !in s[..i.value]
    ensures i.None? ==> c !in s
  {
    if |s| == 0 then None
    else if s[0] == c then Some(0)
    else
      match IndexOfChar(s[1..], c)
      case None => None
      case Some(j) =>
        assert s[..j + 1] == [s[0]] + s[1..][..j];
        Some(j + 1)
  }

  /** One `name=value` piece read back; a piece without `=` is a name with an empty value. */
  function DecodePair(piece: string): Option<Param> {
    var (name, value) :=
      match IndexOfChar(piece, '=')
      case None => (piece, "")
      case Some(i) => (piece[..i], piece[i + 1..]);
    match (Decode(name), Decode(value))
    case (Some(n), Some(v)) => Some((n, v))
    case _ => None
  }

  /** The pieces of a query read back in order, empty pieces skipped. */
  function DecodePieces(pieces: seq<string>): Option<seq<Param>> {
    if |pieces| == 0 then Some([])
    else
      match DecodePieces(pieces[1..])
      case None => None
      case Some(rest) =>
        if pieces[0] == "" then Some(rest)
        else
          match DecodePair(pieces[0])
          case None => None
          case Some(p) => Some([p] + rest)
  }

  /** A query string read back: split at `&`, each piece split at its first `=`. */
  function Parse(query: string): Option<seq<Param>> {
    DecodePieces(Split(query, '&'))
  }

  /** Reading back one serialized pair gives the pair. */
  lemma DecodeEncodePair(p: Param)
    ensures DecodePair(EncodePair(p)) == Some(p)
  {
    var name := Encode(p.0);
    var value := Encode(p.1);
    assert '=' !in name by {
      assert forall i :: 0 <= i < |name| ==> IsFormChar(name[i]);
    }
    SplitAtFirstEquals(name, value);
    DecodeEncode(p.0);
    DecodeEncode(p.1);
  }

  /** A `=`-free name joined to a value by `=` splits back at that `=`. */
  lemma SplitAtFirstEquals(name: string, value: string)
    requires '=' !in name
    ensures var e := name + "=" + value;
      IndexOfChar(e, '=') == Some(|name|) && e[..|name|] == name && e[|name| + 1..] == value
  {
    var e := name + "=" + value;
    assert e == name + ("=" + value);
    IndexOfFree(name, "=" + value, '=');
  }

  /** The first `c` in `a + b`, when `a` has none and `b` starts with one, is right after `a`. */
  lemma {:induction false} IndexOfFree(a: string, b: string, c: char)
    requires c !in a && |b| > 0 && b[0] == c
    ensures IndexOfChar(a + b, c) == Some(|a|)
  {
    if |a| > 0 {
      assert (a + b)[1..] == a[1..] + b;
      IndexOfFree(a[1..], b, c);
    } else {
      assert a + b == b;
    }
  }

  lemma {:induction false} DecodeEncodedPieces(params: seq<Param>)
    ensures DecodePieces(EncodedPairs(params)) == Some(params)
  {
    if |params| > 0 {
      var es := EncodedPairs(params);
      assert es[1..] == EncodedPairs(params[1..]);
      DecodeEncodedPieces(params[1..]);
      DecodeEncodePair(params[0]);
      assert es[0] != "";
      assert params == [params[0]] + params[1..];
    }
  }

  /** Parsing a serialized parameter list gives the list back, names, values and order. */
  lemma ParseSerialize(params: seq<Param>)
    ensures Parse(Serialize(params)) == Some(params)
  {
    var es := EncodedPairs(params);
    if |params| == 0 {
      assert Serialize(params) == "";
      assert Split("", '&') == [""];
    } else {
      SplitJoin(es, '&');
      assert Serialize(params) == Join(es, ['&']);
      DecodeEncodedPieces(params);
    }
  }
}
