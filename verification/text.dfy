/**
 String primitives with the semantics of the JavaScript built-ins the roster
 parser uses: `String.prototype.split` with a one-character separator,
 `Array.prototype.join` and `String.prototype.trim`.
 */
module Text {

  /** ECMAScript WhiteSpace and LineTerminator code points: what `trim` removes. */
  predicate IsSpace(c: char) {
    || c == '\t' || c == '\U{000B}' || c == '\U{000C}' || c == ' '
    || c == '\U{00A0}' || c == '\U{1680}' || ('\U{2000}' <= c <= '\U{200A}')
    || c == '\U{202F}' || c == '\U{205F}' || c == '\U{3000}' || c == '\U{FEFF}'
    || IsLineTerminator(c)
  }

  /** ECMAScript LineTerminator code points: what a regular-expression `.` does not match. */
  predicate IsLineTerminator(c: char) {
    c == '\n' || c == '\r' || c == '\U{2028}' || c == '\U{2029}'
  }

  predicate AllSpace(s: string) {
    forall i :: 0 <= i < |s| ==> IsSpace(s[i])
  }

  /** A string with no removable space at either end. */
  predicate IsTrimmed(s: string) {
    |s| == 0 || (!IsSpace(s[0]) && !IsSpace(s[|s| - 1]))
  }

  function TrimStart(s: string): (r: string)
    ensures |r| <= |s|
    ensures |r| == 0 || !IsSpace(r[0])
  {
    if |s| > 0 && IsSpace(s[0]) then TrimStart(s[1..]) else s
  }

  function TrimEnd(s: string): (r: string)
    ensures |r| <= |s|
    ensures |r| == 0 || !IsSpace(r[|r| - 1])
  {
    if |s| > 0 && IsSpace(s[|s| - 1]) then TrimEnd(s[..|s| - 1]) else s
  }

  /** `s.trim()`: `s` without its leading and trailing space. */
  function Trim(s: string): (r: string)
    ensures IsTrimmed(r)
    ensures |r| <= |s|
  {
    var t := TrimStart(s);
    TrimEndPrefix(t);
    assert |TrimEnd(t)| > 0 ==> TrimEnd(t)[0] == t[0];
    TrimEnd(t)
  }

  /** Trimming the front drops an all-space prefix. */
  lemma {:induction false} TrimStartSuffix(s: string)
    ensures TrimStart(s) == s[|s| - |TrimStart(s)|..]
    ensures AllSpace(s[..|s| - |TrimStart(s)|])
  {
    if |s| > 0 && IsSpace(s[0]) {
      TrimStartSuffix(s[1..]);
      var k := |s| - |TrimStart(s)|;
      assert TrimStart(s) == TrimStart(s[1..]);
      assert s[1..][k - 1..] == s[k..];
      assert AllSpace(s[..k]) by {
        forall i | 0 <= i < k ensures IsSpace(s[..k][i]) {
          if i > 0 { assert s[..k][i] == s[1..][..k - 1][i - 1]; }
        }
      }
    } else {
      assert s[0..] == s;
    }
  }

  /** Trimming the back drops an all-space suffix. */
  lemma {:induction false} TrimEndPrefix(s: string)
    ensures TrimEnd(s) == s[..|TrimEnd(s)|]
    ensures AllSpace(s[|TrimEnd(s)|..])
  {
    if |s| > 0 && IsSpace(s[|s| - 1]) {
      var t := s[..|s| - 1];
      TrimEndPrefix(t);
      var k := |TrimEnd(s)|;
      assert t[..k] == s[..k];
      assert forall i :: k <= i < |s| - 1 ==> s[i] == t[k..][i - k];
    }
  }

  /** Trimming cuts an all-space prefix and an all-space suffix off the string. */
  lemma TrimInfix(s: string)
    ensures exists i, j :: 0 <= i <= j <= |s| && Trim(s) == s[i..j] && AllSpace(s[..i]) && AllSpace(s[j..])
  {
    var t := TrimStart(s);
    var r := TrimEnd(t);
    TrimStartSuffix(s);
    TrimEndPrefix(t);
    var i := |s| - |t|;
    assert r == s[i..i + |r|];
    assert AllSpace(s[i + |r|..]) by {
      assert s[i + |r|..] == t[|r|..];
    }
  }

  /** `s.split(sep)`: the maximal `sep`-free pieces of `s`, in order. */
  function Split(s: string, sep: char): (parts: seq<string>)
    ensures |parts| >= 1
    ensures forall i :: 0 <= i < |parts| ==> sep !in parts[i]
  {
    if |s| == 0 then [""]
    else
      var rest := Split(s[1..], sep);
      if s[0] == sep then [""] + rest
      else [[s[0]] + rest[0]] + rest[1..]
  }

  /** `parts.join(sep)`. */
  function Join(parts: seq<string>, sep: string): string {
    if |parts| == 0 then ""
    else if |parts| == 1 then parts[0]
    else parts[0] + sep + Join(parts[1..], sep)
  }

  /** `parts.map(part => part.trim())`. */
  function TrimAll(parts: seq<string>): (r: seq<string>)
    ensures |r| == |parts|
    ensures forall i :: 0 <= i < |r| ==> r[i] == Trim(parts[i])
  {
    seq(|parts|, i requires 0 <= i < |parts| => Trim(parts[i]))
  }

  /** `parts.filter(Boolean)`: the non-empty strings, in order. */
  function DropEmpty(parts: seq<string>): (r: seq<string>)
    ensures |r| <= |parts|
    ensures forall i :: 0 <= i < |r| ==> r[i] != "" && r[i] in parts
    ensures (forall i :: 0 <= i < |parts| ==> parts[i] != "") ==> r == parts
    ensures forall i :: 0 <= i < |parts| && parts[i] != "" ==> parts[i] in r
    ensures |parts| == 1 ==> r == (if parts[0] == "" then [] else parts)
  {
    if |parts| == 0 then []
    else if parts[0] == "" then DropEmpty(parts[1..])
    else [parts[0]] + DropEmpty(parts[1..])
  }

  /** Mapping `trim` over two lists one after the other is mapping it over each. */
  lemma TrimAllAppend(a: seq<string>, b: seq<string>)
    ensures TrimAll(a + b) == TrimAll(a) + TrimAll(b)
  {
    assert forall i :: 0 <= i < |a + b| ==> TrimAll(a + b)[i] == (TrimAll(a) + TrimAll(b))[i];
  }

  /**
   Filtering two lists one after the other is filtering each: together with
   the one-piece case of `DropEmpty`, every non-empty piece is kept, in
   order, and nothing else.
   */
  lemma {:induction false} DropEmptyAppend(a: seq<string>, b: seq<string>)
    ensures DropEmpty(a + b) == DropEmpty(a) + DropEmpty(b)
    decreases |a|
  {
    if |a| == 0 {
      assert a + b == b;
    } else {
      assert (a + b)[0] == a[0];
      assert (a + b)[1..] == a[1..] + b;
      DropEmptyAppend(a[1..], b);
    }
  }

  /** Joining a piece in front of a non-empty list puts it and the separator in front of their join. */
  lemma JoinCons(x: string, xs: seq<string>, sep: string)
    requires |xs| > 0
    ensures Join([x] + xs, sep) == x + sep + Join(xs, sep)
  {
    assert ([x] + xs)[1..] == xs;
  }

  /** Joining the pieces of a split with the separator gives back the original string. */
  lemma {:induction false} JoinSplit(s: string, sep: char)
    ensures Join(Split(s, sep), [sep]) == s
  {
    if |s| > 0 {
      var rest := Split(s[1..], sep);
      JoinSplit(s[1..], sep);
      if s[0] == sep {
        assert Split(s, sep) == [""] + rest;
        assert Join([""] + rest, [sep]) == "" + [sep] + Join(rest, [sep]) by {
          assert ([""] + rest)[1..] == rest;
        }
      } else {
        var parts := [[s[0]] + rest[0]] + rest[1..];
        assert Split(s, sep) == parts;
        if |rest| == 1 {
          assert Join(parts, [sep]) == [s[0]] + rest[0];
        } else {
          assert parts[1..] == rest[1..];
          assert Join(rest, [sep]) == rest[0] + [sep] + Join(rest[1..], [sep]);
          assert Join(parts, [sep]) == [s[0]] + rest[0] + [sep] + Join(rest[1..], [sep]);
        }
      }
    }
  }

  /** A character other than the separator joins the first piece of what follows it. */
  lemma SplitNonSep(c: char, s: string, sep: char)
    requires c != sep
    ensures Split([c] + s, sep) == [[c] + Split(s, sep)[0]] + Split(s, sep)[1..]
  {
    assert ([c] + s)[1..] == s;
  }

  /** Splitting a string that starts with a separator-free prefix keeps that prefix glued to the first piece. */
  lemma {:induction false} SplitFreePrefix(a: string, t: string, sep: char)
    requires sep !in a
    ensures Split(a + t, sep) == [a + Split(t, sep)[0]] + Split(t, sep)[1..]
  {
    if |a| > 0 {
      SplitFreePrefix(a[1..], t, sep);
      var st := Split(t, sep);
      var rest := Split(a[1..] + t, sep);
      assert a + t == [a[0]] + (a[1..] + t);
      SplitNonSep(a[0], a[1..] + t, sep);
      assert rest[0] == a[1..] + st[0] && rest[1..] == st[1..];
      AppendAssoc([a[0]], a[1..], st[0]);
      assert [a[0]] + a[1..] == a;
    } else {
      var st := Split(t, sep);
      assert a + t == t;
      assert a + st[0] == st[0];
      assert st == [st[0]] + st[1..];
    }
  }

  /** A separator-free string splits into itself. */
  lemma SplitFree(s: string, sep: char)
    requires sep !in s
    ensures Split(s, sep) == [s]
  {
    SplitFreePrefix(s, "", sep);
    assert s + "" == s;
  }

  /** Splitting at one occurrence of the separator splits the text on each side of it on its own. */
  lemma {:induction false} SplitConcat(a: string, t: string, sep: char)
    ensures Split(a + [sep] + t, sep) == Split(a, sep) + Split(t, sep)
    decreases |a|
  {
    if sep !in a {
      SplitAtSep(a, t, sep);
      SplitFree(a, sep);
    } else {
      var i :| 0 <= i < |a| && a[i] == sep;
      var a1, a2 := a[..i], a[i + 1..];
      assert a == a1 + [sep] + a2;
      assert a + [sep] + t == a1 + [sep] + (a2 + [sep] + t);
      var s1, s2, st := Split(a1, sep), Split(a2, sep), Split(t, sep);
      SplitConcat(a1, a2 + [sep] + t, sep);
      SplitConcat(a2, t, sep);
      SplitConcat(a1, a2, sep);
      assert Split(a + [sep] + t, sep) == s1 + (s2 + st);
      AppendAssoc(s1, s2, st);
    }
  }

  /** Concatenation is associative; stated apart so that no fact about the pieces is in scope. */
  lemma AppendAssoc<T>(x: seq<T>, y: seq<T>, z: seq<T>)
    ensures x + (y + z) == (x + y) + z
  {
  }

  /** A separator-free piece, the separator, then the rest: the piece comes first, then the rest's pieces. */
  lemma SplitAtSep(a: string, t: string, sep: char)
    requires sep !in a
    ensures Split(a + [sep] + t, sep) == [a] + Split(t, sep)
  {
    assert a + [sep] + t == a + ([sep] + t);
    SplitFreePrefix(a, [sep] + t, sep);
    assert Split([sep] + t, sep) == [""] + Split(t, sep) by {
      assert ([sep] + t)[1..] == t;
    }
    assert a + "" == a;
  }

  /**
   Splitting pieces joined by a separator whose first character is `sep`
   gives the pieces back, each but the first carrying the padding that
   followed the separator character.
   */
  lemma {:induction false} SplitJoinPadded(pre: string, parts: seq<string>, sep: char, pad: string)
    requires |parts| >= 1
    requires sep !in pre && sep !in pad
    requires forall i :: 0 <= i < |parts| ==> sep !in parts[i]
    decreases |parts|
    ensures var r := Split(pre + Join(parts, [sep] + pad), sep);
      && |r| == |parts|
      && r[0] == pre + parts[0]
      && forall i :: 1 <= i < |r| ==> r[i] == pad + parts[i]
  {
    if |parts| == 1 {
      assert sep !in pre + parts[0];
      SplitFreePrefix(pre + parts[0], "", sep);
      assert pre + parts[0] + "" == pre + parts[0];
    } else {
      var head := pre + parts[0];
      var tail := pad + Join(parts[1..], [sep] + pad);
      assert pre + Join(parts, [sep] + pad) == head + [sep] + tail;
      assert sep !in head;
      SplitAtSep(head, tail, sep);
      SplitJoinPadded(pad, parts[1..], sep, pad);
      var r := Split(pre + Join(parts, [sep] + pad), sep);
      var rt := Split(tail, sep);
      assert r == [head] + rt;
      forall i | 1 <= i < |r| ensures r[i] == pad + parts[i] {
        assert r[i] == rt[i - 1];
        assert parts[1..][i - 1] == parts[i];
      }
    }
  }

  /** Splitting separator-free pieces joined by the separator gives the pieces back. */
  lemma SplitJoin(parts: seq<string>, sep: char)
    requires |parts| >= 1
    requires forall i :: 0 <= i < |parts| ==> sep !in parts[i]
    ensures Split(Join(parts, [sep]), sep) == parts
  {
    SplitJoinPadded("", parts, sep, "");
    assert [sep] + "" == [sep];
    assert "" + Join(parts, [sep]) == Join(parts, [sep]);
    NoPadding(Split(Join(parts, [sep]), sep), parts);
  }

  /** Pieces that are the parts with empty padding in front are the parts. */
  lemma NoPadding(r: seq<string>, parts: seq<string>)
    requires |r| == |parts| >= 1 && r[0] == "" + parts[0]
    requires forall i :: 1 <= i < |r| ==> r[i] == "" + parts[i]
    ensures r == parts
  {
    forall i | 0 <= i < |r|
      ensures r[i] == parts[i]
    {
      assert r[i] == "" + parts[i];
    }
  }

  /** Trimming introduces no character that was not there. */
  lemma TrimKeepsOut(s: string, c: char)
    requires c !in s
    ensures c !in Trim(s)
  {
    TrimInfix(s);
  }

  /** Trimming a string that is already trimmed changes nothing. */
  lemma TrimTrimmed(s: string)
    requires IsTrimmed(s)
    ensures Trim(s) == s
  {
  }

  /** Space in front of a string does not survive trimming. */
  lemma {:induction false} TrimAfterSpace(a: string, s: string)
    requires AllSpace(a)
    ensures Trim(a + s) == Trim(s)
  {
    if |a| > 0 {
      assert (a + s)[1..] == a[1..] + s;
      TrimAfterSpace(a[1..], s);
    } else {
      assert a + s == s;
    }
  }

  /** A string that is all space trims to nothing from the front. */
  lemma {:induction false} TrimStartAllSpace(s: string)
    requires AllSpace(s)
    ensures TrimStart(s) == ""
  {
    if |s| > 0 {
      assert AllSpace(s[1..]) by {
        forall k | 0 <= k < |s[1..]| ensures IsSpace(s[1..][k]) { assert s[1..][k] == s[k + 1]; }
      }
      TrimStartAllSpace(s[1..]);
    }
  }

  /** A string that trims to nothing is all space. */
  lemma TrimEmptyAllSpace(s: string)
    requires Trim(s) == ""
    ensures AllSpace(s)
  {
    TrimInfix(s);
    var i, j :| 0 <= i <= j <= |s| && Trim(s) == s[i..j] && AllSpace(s[..i]) && AllSpace(s[j..]);
    assert i == j;
    forall k | 0 <= k < |s| ensures IsSpace(s[k]) {
      if k < i { assert IsSpace(s[..i][k]); } else { assert IsSpace(s[j..][k - j]); }
    }
  }

  /** A string trims to nothing exactly when it is all space. */
  lemma TrimEmptyIff(s: string)
    ensures Trim(s) == "" <==> AllSpace(s)
  {
    if AllSpace(s) {
      TrimStartAllSpace(s);
    }
    if Trim(s) == "" {
      TrimEmptyAllSpace(s);
    }
  }

  /** A character found in no piece and not in the separator is not in their join. */
  lemma {:induction false} JoinKeepsOut(parts: seq<string>, sep: string, c: char)
    requires c !in sep
    requires forall i :: 0 <= i < |parts| ==> c !in parts[i]
    ensures c !in Join(parts, sep)
  {
    if |parts| > 1 {
      JoinKeepsOut(parts[1..], sep, c);
    }
  }

  /** Non-empty trimmed pieces joined by a separator give a trimmed string. */
  lemma {:induction false} JoinTrimmed(parts: seq<string>, sep: string)
    requires |parts| >= 1
    requires forall i :: 0 <= i < |parts| ==> parts[i] != "" && IsTrimmed(parts[i])
    ensures Join(parts, sep) != "" && IsTrimmed(Join(parts, sep))
  {
    if |parts| > 1 {
      JoinTrimmed(parts[1..], sep);
      var tail := Join(parts[1..], sep);
      var s := parts[0] + sep + tail;
      assert s[0] == parts[0][0];
      assert s[|s| - 1] == tail[|tail| - 1];
    }
  }
}
