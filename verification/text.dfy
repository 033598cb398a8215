/**
 * The JavaScript string operations the channel catalog relies on, written out
 * over `string` (a sequence of UTF-16 code units in the source, of `char` here):
 * `includes`, `startsWith`, `indexOf`, `split`, `join`, `toLowerCase` and `trim`.
 */
module Text {

  /** A value the source treats as text: a string, `null` or `undefined`. */
  datatype JsText = Null | Undefined | Str(value: string)
  {
    /** JavaScript truthiness of the value: `null`, `undefined` and `""` are falsy. */
    predicate Falsy() {
      !Str? || value == ""
    }
  }

  /** `s.startsWith(p)` */
  predicate StartsWith(s: string, p: string) {
    |p| <= |s| && s[..|p|] == p
  }

  /** `s.includes(sub)`: `sub` occurs somewhere in `s`. */
  predicate Contains(s: string, sub: string)
    decreases |s|
  {
    StartsWith(s, sub) || (|s| > 0 && Contains(s[1..], sub))
  }

  /** `s.indexOf(sep)`: the first position at which `sep` occurs in `s`, or -1. */
  function IndexOf(s: string, sep: string): (r: int)
    ensures -1 <= r <= |s|
    ensures r == -1 <==> !Contains(s, sep)
    ensures r >= 0 ==> StartsWith(s[r..], sep)
    ensures forall j :: 0 <= j < r ==> !StartsWith(s[j..], sep)
    decreases |s|
  {
    if StartsWith(s, sep) then 0
    else if s == [] then -1
    else
      var k := IndexOf(s[1..], sep);
      assert forall j :: 1 <= j <= |s| ==> s[1..][j - 1..] == s[j..];
      if k < 0 then -1 else k + 1
  }

  /**
   * `v` is the field at the front of `t`: a prefix of `t` with no occurrence
   * of `sep` starting inside it, ending where `sep` next starts or at the end.
   */
  predicate FieldAt(t: string, sep: string, v: string) {
    && StartsWith(t, v)
    && (|v| == |t| || StartsWith(t[|v|..], sep))
    && forall p :: 0 <= p < |v| ==> !StartsWith(t[p..], sep)
  }

  /** The text after the first occurrence of `sep` in `s`. */
  function After(s: string, sep: string): (t: string)
    requires Contains(s, sep)
    ensures |t| <= |s| - |sep|
  {
    var i := IndexOf(s, sep);
    s[i + |sep|..]
  }

  /**
   * `s.split(sep)[1]` for a non-empty separator: the text between the first
   * occurrence of `sep` and the next one (or the end of `s`), and `undefined`
   * when `sep` does not occur at all.
   */
  function SecondField(s: string, sep: string): (r: JsText)
    requires sep != ""
    ensures r == Undefined <==> !Contains(s, sep)
    ensures r.Str? ==> Contains(s, sep) && FieldAt(After(s, sep), sep, r.value)
    ensures r != Null
  {
    if !Contains(s, sep) then Undefined
    else
      var t := After(s, sep);
      var j := IndexOf(t, sep);
      if j < 0 then
        FieldIsRest(t, sep);
        Str(t)
      else
        FieldEndsAtSep(t, sep, j);
        Str(t[..j])
  }

  /** Without an occurrence of `sep`, the field at the front of `t` is all of `t`. */
  lemma FieldIsRest(t: string, sep: string)
    requires !Contains(t, sep)
    ensures FieldAt(t, sep, t)
  {
    NowhereInside(t, sep);
    assert t[..|t|] == t;
  }

  /** The field at the front of `t` stops at the first occurrence `j` of `sep`. */
  lemma FieldEndsAtSep(t: string, sep: string, j: int)
    requires 0 <= j <= |t| && j == IndexOf(t, sep)
    ensures FieldAt(t, sep, t[..j])
  {
    assert t[..j][..j] == t[..j];
  }

  /** When `sep` does not occur in `s`, no suffix of `s` starts with it. */
  lemma NowhereInside(s: string, sep: string)
    requires !Contains(s, sep)
    ensures forall p :: 0 <= p < |s| ==> !StartsWith(s[p..], sep)
  {
    forall p | 0 <= p < |s| && StartsWith(s[p..], sep)
      ensures false
    {
      ContainsFrom(s, sep, p);
    }
  }

  /** An occurrence at position `p` makes `sep` occur in `s`. */
  lemma {:induction false} ContainsFrom(s: string, sep: string, p: nat)
    requires p <= |s| && StartsWith(s[p..], sep)
    ensures Contains(s, sep)
    decreases p
  {
    if p > 0 {
      assert s[1..][p - 1..] == s[p..];
      ContainsFrom(s[1..], sep, p - 1);
    }
  }

  /** `ws.join(c)`: the pieces with one `c` between each two neighbours. */
  function Join(ws: seq<string>, c: char): string
  {
    if |ws| == 0 then ""
    else if |ws| == 1 then ws[0]
    else ws[0] + [c] + Join(ws[1..], c)
  }

  /**
   * `s.split(c)`: the maximal pieces of `s` that do not contain `c`, in order;
   * `""` splits to `[""]`.
   */
  function Split(s: string, c: char): (r: seq<string>)
    ensures |r| >= 1
    ensures forall k :: 0 <= k < |r| ==> c !in r[k]
    ensures Join(r, c) == s
    decreases |s|
  {
    if s == [] then [""]
    else
      var rest := Split(s[1..], c);
      if s[0] == c then
        assert ([""] + rest)[1..] == rest;
        [""] + rest
      else
        var r := [[s[0]] + rest[0]] + rest[1..];
        assert r[1..] == rest[1..];
        assert |rest| > 1 ==> Join(rest, c) == rest[0] + [c] + Join(rest[1..], c);
        assert Join(r, c) == [s[0]] + Join(rest, c);
        r
  }

  /** A piece without the separator splits to itself. */
  lemma {:induction false} SplitPiece(w: string, c: char)
    requires c !in w
    ensures Split(w, c) == [w]
    decreases |w|
  {
    if w != [] {
      SplitPiece(w[1..], c);
    }
  }

  /** A piece followed by the separator comes off the front of the split. */
  lemma {:induction false} SplitPieceThen(w: string, c: char, rest: string)
    requires c !in w
    ensures Split(w + [c] + rest, c) == [w] + Split(rest, c)
    decreases |w|
  {
    var s := w + [c] + rest;
    if w == [] {
      assert s[1..] == rest;
    } else {
      assert s[1..] == w[1..] + [c] + rest;
      SplitPieceThen(w[1..], c, rest);
      assert [s[0]] + w[1..] == w;
    }
  }

  /** Splitting undoes joining, for pieces that do not contain the separator. */
  lemma {:induction false} SplitJoin(ws: seq<string>, c: char)
    requires |ws| >= 1
    requires forall k :: 0 <= k < |ws| ==> c !in ws[k]
    ensures Split(Join(ws, c), c) == ws
    decreases |ws|
  {
    if |ws| == 1 {
      SplitPiece(ws[0], c);
    } else {
      SplitJoin(ws[1..], c);
      SplitPieceThen(ws[0], c, Join(ws[1..], c));
      assert [ws[0]] + ws[1..] == ws;
    }
  }

  /** SQLite's `LOWER` on one character: only the ASCII capitals are folded. */
  function AsciiLowerChar(ch: char): char
  {
    if 'A' <= ch <= 'Z' then (ch as int + 32) as char else ch
  }

  /** SQLite's `LOWER(s)`: ASCII capitals folded, every other character kept. */
  function AsciiLower(s: string): (r: string)
    ensures |r| == |s|
    ensures forall i :: 0 <= i < |s| ==> r[i] == AsciiLowerChar(s[i])
  {
    seq(|s|, i requires 0 <= i < |s| => AsciiLowerChar(s[i]))
  }

  /**
   * `toLowerCase` on one character, for every capital of the Basic Latin,
   * Latin-1 Supplement, Greek and Coptic (U+0370 to U+03FF) and Cyrillic
   * (U+0400 to U+04FF) blocks, each to its lowercase in Unicode's case table;
   * every other character is kept.
   */
  function JsLowerChar(ch: char): char
  {
    if ch < '\U{0370}' then
      if 'A' <= ch <= 'Z' then (ch as int + 0x20) as char
      else if '\U{00C0}' <= ch <= '\U{00DE}' && ch != '\U{00D7}' then (ch as int + 0x20) as char
      else ch
    else if ch < '\U{0400}' then GreekLowerChar(ch)
    else if ch < '\U{0500}' then CyrillicLowerChar(ch)
    else ch
  }

  /** The lowercase of a character of the Greek and Coptic block. */
  function GreekLowerChar(ch: char): char
    requires '\U{0370}' <= ch < '\U{0400}'
  {
    if ch in {'\U{0370}', '\U{0372}', '\U{0376}', '\U{03F7}', '\U{03FA}'} then (ch as int + 1) as char
    else if ch == '\U{037F}' then '\U{03F3}'
    else if ch == '\U{0386}' then '\U{03AC}'
    else if '\U{0388}' <= ch <= '\U{038A}' then (ch as int + 0x25) as char
    else if ch == '\U{038C}' then '\U{03CC}'
    else if '\U{038E}' <= ch <= '\U{038F}' then (ch as int + 0x3F) as char
    else if '\U{0391}' <= ch <= '\U{03AB}' && ch != '\U{03A2}' then (ch as int + 0x20) as char
    else if ch == '\U{03CF}' then '\U{03D7}'
    else if '\U{03D8}' <= ch <= '\U{03EE}' && ch as int % 2 == 0 then (ch as int + 1) as char
    else if ch == '\U{03F4}' then '\U{03B8}'
    else if ch == '\U{03F9}' then '\U{03F2}'
    else if '\U{03FD}' <= ch then (ch as int - 0x82) as char
    else ch
  }

  /** The lowercase of a character of the Cyrillic block. */
  function CyrillicLowerChar(ch: char): char
    requires '\U{0400}' <= ch < '\U{0500}'
  {
    if ch <= '\U{040F}' then (ch as int + 0x50) as char
    else if ch <= '\U{042F}' then (ch as int + 0x20) as char
    else if '\U{0460}' <= ch <= '\U{0480}' && ch as int % 2 == 0 then (ch as int + 1) as char
    else if '\U{048A}' <= ch <= '\U{04BE}' && ch as int % 2 == 0 then (ch as int + 1) as char
    else if ch == '\U{04C0}' then '\U{04CF}'
    else if '\U{04C1}' <= ch <= '\U{04CD}' && ch as int % 2 == 1 then (ch as int + 1) as char
    else if '\U{04D0}' <= ch <= '\U{04FE}' && ch as int % 2 == 0 then (ch as int + 1) as char
    else ch
  }

  /** `s.toLowerCase()`, character by character. */
  function JsLower(s: string): (r: string)
    ensures |r| == |s|
    ensures forall i :: 0 <= i < |s| ==> r[i] == JsLowerChar(s[i])
  {
    seq(|s|, i requires 0 <= i < |s| => JsLowerChar(s[i]))
  }

  /** A text shorter than `sub` does not contain it. */
  lemma {:induction false} ShorterNotContains(s: string, sub: string)
    requires |s| < |sub|
    ensures !Contains(s, sub)
    decreases |s|
  {
    if s != [] {
      ShorterNotContains(s[1..], sub);
    }
  }

  /** The characters `String.prototype.trim` removes: white space and line terminators. */
  predicate IsJsSpace(ch: char)
  {
    ch in {'\t', '\n', '\U{000B}', '\U{000C}', '\r', ' ', '\U{00A0}', '\U{1680}',
           '\U{2028}', '\U{2029}', '\U{202F}', '\U{205F}', '\U{3000}', '\U{FEFF}'}
    || ('\U{2000}' <= ch <= '\U{200A}')
  }

  /** Leading white space removed: a suffix of `s` that starts with a non-space. */
  function TrimStart(s: string): (r: string)
    ensures |r| <= |s| && r == s[|s| - |r|..]
    ensures r == [] || !IsJsSpace(r[0])
    ensures forall i :: 0 <= i < |s| - |r| ==> IsJsSpace(s[i])
    decreases |s|
  {
    if s != [] && IsJsSpace(s[0]) then TrimStart(s[1..]) else s
  }

  /** Trailing white space removed: a prefix of `s` that ends with a non-space. */
  function TrimEnd(s: string): (r: string)
    ensures |r| <= |s| && r == s[..|r|]
    ensures r == [] || !IsJsSpace(r[|r| - 1])
    ensures forall i :: |r| <= i < |s| ==> IsJsSpace(s[i])
    decreases |s|
  {
    if s != [] && IsJsSpace(s[|s| - 1]) then TrimEnd(s[..|s| - 1]) else s
  }

  /** `s.trim()` */
  function Trim(s: string): string
  {
    TrimEnd(TrimStart(s))
  }

  /** `s.trim()` is empty (falsy) exactly when every character of `s` is white space. */
  lemma TrimEmptyIffBlank(s: string)
    ensures Trim(s) == "" <==> forall i :: 0 <= i < |s| ==> IsJsSpace(s[i])
  {
    var t := TrimStart(s);
    if Trim(s) != "" {
      assert t != [];
      assert !IsJsSpace(s[|s| - |t|]);
    }
  }
}
