/** The string primitives the library takes from JavaScript, on an ASCII
    character model: case mapping, white space and `trim`, `split` and `join`
    on one separator character, `indexOf`/`includes`/`replace` with a string
    pattern, and the decimal rendering of an integer. */
module Text {

  predicate IsUpper(c: char) { 'A' <= c <= 'Z' }
  predicate IsLower(c: char) { 'a' <= c <= 'z' }
  predicate IsLetter(c: char) { IsUpper(c) || IsLower(c) }
  predicate IsDigit(c: char) { '0' <= c <= '9' }

  /** The ASCII characters that `trim` removes and that `\s` matches. */
  predicate IsWhitespace(c: char)
  {
    c == ' ' || c == '\t' || c == '\n' || c == '\r' || c == '\U{000B}' || c == '\U{000C}'
  }

  function ToLower(c: char): char
  {
    if IsUpper(c) then (c as int + 32) as char else c
  }

  function ToUpper(c: char): char
  {
    if IsLower(c) then (c as int - 32) as char else c
  }

  /** The two case mappings agree exactly on the characters that are not letters. */
  lemma CaseInvariantIff(c: char)
    ensures ToUpper(c) == ToLower(c) <==> !IsLetter(c)
  {
  }

  /** `s.toLowerCase()`: each character mapped on its own. */
  function LowerStr(s: string): string
  {
    seq(|s|, i requires 0 <= i < |s| => ToLower(s[i]))
  }

  /** `s.toUpperCase()`: each character mapped on its own. */
  function UpperStr(s: string): string
  {
    seq(|s|, i requires 0 <= i < |s| => ToUpper(s[i]))
  }

  /** Lower-casing distributes over concatenation. */
  lemma LowerStrAppend(a: string, b: string)
    ensures LowerStr(a + b) == LowerStr(a) + LowerStr(b)
  {
    assert forall i :: 0 <= i < |a + b| ==> LowerStr(a + b)[i] == (LowerStr(a) + LowerStr(b))[i];
  }

  /** Lower-casing changes a string exactly when it holds an upper-case letter. */
  lemma {:induction false} LowerChangesIff(s: string)
    ensures LowerStr(s) != s <==> exists i :: 0 <= i < |s| && IsUpper(s[i])
  {
    if forall i :: 0 <= i < |s| ==> !IsUpper(s[i]) {
      assert LowerStr(s) == s;
    } else {
      var i :| 0 <= i < |s| && IsUpper(s[i]);
      assert LowerStr(s)[i] != s[i];
    }
  }

  /** Upper-casing changes a string exactly when it holds a lower-case letter. */
  lemma {:induction false} UpperChangesIff(s: string)
    ensures UpperStr(s) != s <==> exists i :: 0 <= i < |s| && IsLower(s[i])
  {
    if forall i :: 0 <= i < |s| ==> !IsLower(s[i]) {
      assert UpperStr(s) == s;
    } else {
      var i :| 0 <= i < |s| && IsLower(s[i]);
      assert UpperStr(s)[i] != s[i];
    }
  }

  // ---------------------------------------------------------------- trim

  /** `s` without its leading white space. */
  function TrimStart(s: string): (r: string)
    ensures |r| <= |s|
    ensures forall i :: 0 <= i < |s| - |r| ==> IsWhitespace(s[i])
    ensures r == [] || !IsWhitespace(r[0])
    ensures forall c :: c in r ==> c in s
    decreases |s|
  {
    if s != [] && IsWhitespace(s[0]) then TrimStart(s[1..]) else s
  }

  /** `s` without its trailing white space. */
  function TrimEnd(s: string): (r: string)
    ensures |r| <= |s|
    ensures forall i :: |r| <= i < |s| ==> IsWhitespace(s[i])
    ensures r == [] || !IsWhitespace(r[|r| - 1])
    ensures forall c :: c in r ==> c in s
    decreases |s|
  {
    if s != [] && IsWhitespace(s[|s| - 1]) then TrimEnd(s[..|s| - 1]) else s
  }

  /** What `TrimEnd` keeps is a prefix of `s`. */
  lemma {:induction false} TrimEndPrefix(s: string)
    ensures TrimEnd(s) == s[..|TrimEnd(s)|]
    decreases |s|
  {
    if s != [] && IsWhitespace(s[|s| - 1]) {
      TrimEndPrefix(s[..|s| - 1]);
    }
  }

  /** `s.trim()`: `s` with the white space at both ends dropped. */
  function Trim(s: string): (r: string)
    ensures r == [] || (!IsWhitespace(r[0]) && !IsWhitespace(r[|r| - 1]))
    ensures forall c :: c in r ==> c in s
  {
    var t := TrimStart(s);
    var r := TrimEnd(t);
    TrimEndPrefix(t);
    assert r == [] || r[0] == t[0];
    r
  }

  /** A string with no white space at its ends is its own trim. */
  lemma {:induction false} TrimIdentity(s: string)
    requires s == [] || (!IsWhitespace(s[0]) && !IsWhitespace(s[|s| - 1]))
    ensures Trim(s) == s
  {
  }

  /** Leading white space before a non-blank start is all `TrimStart` drops. */
  lemma {:induction false} TrimStartPadding(pre: string, y: string)
    requires forall i :: 0 <= i < |pre| ==> IsWhitespace(pre[i])
    requires y == [] || !IsWhitespace(y[0])
    ensures TrimStart(pre + y) == y
    decreases |pre|
  {
    if pre == [] {
      assert pre + y == y;
    } else {
      assert (pre + y)[1..] == pre[1..] + y;
      TrimStartPadding(pre[1..], y);
    }
  }

  /** Trailing white space after a non-blank end is all `TrimEnd` drops. */
  lemma {:induction false} TrimEndPadding(y: string, post: string)
    requires forall i :: 0 <= i < |post| ==> IsWhitespace(post[i])
    requires y == [] || !IsWhitespace(y[|y| - 1])
    ensures TrimEnd(y + post) == y
    decreases |post|
  {
    if post == [] {
      assert y + post == y;
    } else {
      assert (y + post)[..|y + post| - 1] == y + post[..|post| - 1];
      TrimEndPadding(y, post[..|post| - 1]);
    }
  }

  /** `trim` removes exactly the white-space padding around a non-blank text. */
  lemma TrimPadded(pre: string, x: string, post: string)
    requires forall i :: 0 <= i < |pre| ==> IsWhitespace(pre[i])
    requires forall i :: 0 <= i < |post| ==> IsWhitespace(post[i])
    requires x != [] && !IsWhitespace(x[0]) && !IsWhitespace(x[|x| - 1])
    ensures Trim(pre + x + post) == x
  {
    assert pre + x + post == pre + (x + post);
    TrimStartPadding(pre, x + post);
    TrimEndPadding(x, post);
  }

  // ---------------------------------------------------------------- split and join

  /** `s.split(sep)` for a one-character separator: the maximal runs between
      separators, empty runs included, so `"".split(sep)` is `[""]`. */
  function Split(s: string, sep: char): (r: seq<string>)
    ensures |r| >= 1
    decreases |s|
  {
    if s == [] then [[]]
    else
      var rest := Split(s[1..], sep);
      if s[0] == sep then [[]] + rest
      else [[s[0]] + rest[0]] + rest[1..]
  }

  /** No piece of a split holds the separator, and every character of a piece
      comes from the string. */
  lemma {:induction false} SplitPieces(s: string, sep: char)
    ensures forall w :: w in Split(s, sep) ==> sep !in w && forall c :: c in w ==> c in s
    decreases |s|
  {
    if s != [] {
      SplitPieces(s[1..], sep);
      var rest := Split(s[1..], sep);
      assert forall c :: c in s[1..] ==> c in s;
      if s[0] != sep {
        assert rest[0] in rest;
        assert forall w :: w in Split(s, sep) ==> w == [s[0]] + rest[0] || w in rest[1..];
        assert forall w :: w in rest[1..] ==> w in rest;
      }
    }
  }

  /** `ws.join(sep)` */
  function Join(ws: seq<string>, sep: char): string
    decreases |ws|
  {
    if |ws| == 0 then []
    else if |ws| == 1 then ws[0]
    else ws[0] + [sep] + Join(ws[1..], sep)
  }

  lemma {:induction false} JoinCons(w: string, ws: seq<string>, sep: char)
    requires |ws| >= 1
    ensures Join([w] + ws, sep) == w + [sep] + Join(ws, sep)
  {
    assert ([w] + ws)[1..] == ws;
  }

  /** Joining the pieces of a split gives back the string. */
  lemma {:induction false} JoinSplit(s: string, sep: char)
    ensures Join(Split(s, sep), sep) == s
    decreases |s|
  {
    if s != [] {
      var rest := Split(s[1..], sep);
      JoinSplit(s[1..], sep);
      assert s == [s[0]] + s[1..];
      if s[0] == sep {
        assert Split(s, sep) == [[]] + rest;
        JoinCons([], rest, sep);
      } else if |rest| == 1 {
        assert Split(s, sep) == [[s[0]] + rest[0]];
      } else {
        assert Split(s, sep) == [[s[0]] + rest[0]] + rest[1..];
        JoinCons([s[0]] + rest[0], rest[1..], sep);
        assert rest == [rest[0]] + rest[1..];
        JoinCons(rest[0], rest[1..], sep);
      }
    }
  }

  lemma {:induction false} SplitNoSeparator(w: string, sep: char)
    requires sep !in w
    ensures Split(w, sep) == [w]
    decreases |w|
  {
    if w != [] {
      SplitNoSeparator(w[1..], sep);
      assert w == [w[0]] + w[1..];
    }
  }

  lemma {:induction false} SplitAfterWord(w: string, s: string, sep: char)
    requires sep !in w
    ensures Split(w + [sep] + s, sep) == [w] + Split(s, sep)
    decreases |w|
  {
    var t := w + [sep] + s;
    if w == [] {
      assert t[1..] == s;
    } else {
      assert t[1..] == w[1..] + [sep] + s;
      SplitAfterWord(w[1..], s, sep);
      assert w == [w[0]] + w[1..];
    }
  }

  /** Splitting a join of separator-free words gives back the words. */
  lemma {:induction false} SplitJoin(ws: seq<string>, sep: char)
    requires |ws| >= 1
    requires forall w :: w in ws ==> sep !in w
    ensures Split(Join(ws, sep), sep) == ws
    decreases |ws|
  {
    if |ws| == 1 {
      SplitNoSeparator(ws[0], sep);
    } else {
      SplitJoin(ws[1..], sep);
      SplitAfterWord(ws[0], Join(ws[1..], sep), sep);
      assert ws == [ws[0]] + ws[1..];
    }
  }

  /** The separator never follows itself in `s`. */
  predicate NoAdjacent(s: string, sep: char)
  {
    forall i, j :: 0 <= i < |s| && 0 <= j < |s| && j == i + 1 ==> !(s[i] == sep && s[j] == sep)
  }

  /** A string is well separated when the separator never opens or closes it
      and never follows itself. */
  predicate WellSeparated(s: string, sep: char)
  {
    (s == [] || (s[0] != sep && s[|s| - 1] != sep)) && NoAdjacent(s, sep)
  }

  /** Joining non-empty separator-free words gives a well-separated string,
      every character of which is the separator or comes from a word. */
  lemma {:induction false} JoinShape(ws: seq<string>, sep: char)
    requires forall w :: w in ws ==> |w| > 0 && sep !in w
    ensures WellSeparated(Join(ws, sep), sep)
    ensures forall c :: c in Join(ws, sep) ==> c == sep || exists w :: w in ws && c in w
    ensures |ws| > 0 ==> Join(ws, sep) != [] && Join(ws, sep)[0] == ws[0][0]
    decreases |ws|
  {
    if |ws| == 1 {
      assert ws[0] in ws;
    } else if |ws| > 1 {
      var w, t := ws[0], ws[1..];
      assert w in ws;
      assert forall v :: v in t ==> v in ws;
      JoinShape(t, sep);
      var j := Join(t, sep);
      var s := w + [sep] + j;
      assert s == Join(ws, sep);
      assert j != [] && j[0] == t[0][0];
      forall i, k | 0 <= i && k == i + 1 && k < |s| ensures !(s[i] == sep && s[k] == sep) {
        if i > |w| {
          assert s[i] == j[i - |w| - 1] && s[k] == j[i - |w|];
        }
      }
      assert s[|s| - 1] == j[|j| - 1];
      forall c | c in s ensures c == sep || exists v :: v in ws && c in v {
        if c in w {
        } else if c != sep {
          assert c in j;
        }
      }
    }
  }

  // ---------------------------------------------------------------- search and replace

  /** `pat` occurs in `s` starting at index `k`. */
  predicate OccursAt(s: string, pat: string, k: int)
  {
    0 <= k && k + |pat| <= |s| && s[k..k + |pat|] == pat
  }

  /** An occurrence past the first index is an occurrence in the tail. */
  lemma OccursInTail(s: string, pat: string)
    requires s != []
    ensures forall j :: 1 <= j && OccursAt(s, pat, j) ==> OccursAt(s[1..], pat, j - 1)
    ensures forall j :: 1 <= j && OccursAt(s[1..], pat, j - 1) ==> OccursAt(s, pat, j)
  {
    forall j | 1 <= j && OccursAt(s, pat, j) ensures OccursAt(s[1..], pat, j - 1) {
      assert s[1..][j - 1..j - 1 + |pat|] == s[j..j + |pat|];
    }
    forall j | 1 <= j && OccursAt(s[1..], pat, j - 1) ensures OccursAt(s, pat, j) {
      assert s[1..][j - 1..j - 1 + |pat|] == s[j..j + |pat|];
    }
  }

  /** `s.indexOf(pat)`: the first index at which `pat` occurs, or -1. */
  function IndexOf(s: string, pat: string): (k: int)
    ensures k == -1 || OccursAt(s, pat, k)
    ensures forall j :: 0 <= j && (k == -1 || j < k) ==> !OccursAt(s, pat, j)
    decreases |s|
  {
    if |s| < |pat| then -1
    else if s[..|pat|] == pat then 0
    else
      var k := IndexOf(s[1..], pat);
      OccursInTail(s, pat);
      if k == -1 then -1 else k + 1
  }

  /** The index of the last `c` in `s`, or -1 when there is none. */
  function LastIndexOf(s: string, c: char): (k: int)
    ensures -1 <= k < |s|
    ensures k >= 0 ==> s[k] == c
    ensures forall j :: k < j < |s| ==> s[j] != c
  {
    if s == [] then -1
    else
      var k := LastIndexOf(s[1..], c);
      if k >= 0 then k + 1 else if s[0] == c then 0 else -1
  }

  /** `s.includes(pat)` */
  predicate Contains(s: string, pat: string)
  {
    IndexOf(s, pat) != -1
  }

  /** `s.replace(pat, rep)` with a string pattern: only the FIRST occurrence is
      replaced, and a string without one is returned unchanged. */
  function ReplaceFirst(s: string, pat: string, rep: string): (r: string)
    ensures Contains(s, pat) ==> |r| == |s| - |pat| + |rep|
    ensures !Contains(s, pat) ==> r == s
  {
    var k := IndexOf(s, pat);
    if k == -1 then s else s[..k] + rep + s[k + |pat|..]
  }

  /** Only the first occurrence is replaced: whatever follows it, further
      occurrences included, is kept. */
  lemma ReplaceFirstAt(pre: string, pat: string, rep: string, post: string)
    requires forall j :: 0 <= j < |pre| ==> !OccursAt(pre + pat + post, pat, j)
    ensures ReplaceFirst(pre + pat + post, pat, rep) == pre + rep + post
  {
    var s := pre + pat + post;
    assert OccursAt(s, pat, |pre|) by {
      assert s[|pre|..|pre| + |pat|] == pat;
    }
    var k := IndexOf(s, pat);
    assert k == |pre|;
    assert s[..k] == pre && s[k + |pat|..] == post;
  }

  // ---------------------------------------------------------------- numbers

  function DigitChar(d: nat): (c: char)
    requires d < 10
    ensures IsDigit(c)
  {
    ('0' as int + d) as char
  }

  /** The decimal digits of `n`, most significant first, without leading zeros. */
  function NatToString(n: nat): (r: string)
    ensures |r| >= 1 && forall i :: 0 <= i < |r| ==> IsDigit(r[i])
    ensures |r| > 1 ==> r[0] != '0'
    decreases n
  {
    if n < 10 then [DigitChar(n)] else NatToString(n / 10) + [DigitChar(n % 10)]
  }

  /** `n.toString()` for a whole number, written out in decimal digits (the
      exponent notation JavaScript uses from 1e21 on is not modelled). */
  function IntToString(n: int): string
  {
    if n < 0 then "-" + NatToString(-n) else NatToString(n)
  }

  /** The value of a string of decimal digits. */
  function DigitsValue(s: string): nat
    requires forall i :: 0 <= i < |s| ==> IsDigit(s[i])
  {
    if s == [] then 0
    else
      assert IsDigit(s[|s| - 1]);
      DigitsValue(s[..|s| - 1]) * 10 + (s[|s| - 1] as int - '0' as int)
  }

  /** Reading back the digits of `n` gives `n`. */
  lemma {:induction false} NatToStringRoundTrip(n: nat)
    ensures DigitsValue(NatToString(n)) == n
    decreases n
  {
    var r := NatToString(n);
    if n >= 10 {
      NatToStringRoundTrip(n / 10);
      assert r[..|r| - 1] == NatToString(n / 10);
    }
  }
}
