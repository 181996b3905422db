/** The passphrase normaliser of index.js:164-186: lower-case, keep only the
    37 characters of `Allowed`, collapse runs of spaces, trim, split into
    words, drop one-character words, drop repeated words (keeping the first
    occurrence) and join with single spaces.

    `Normalized` is the specification, one function per step of the source;
    `NormalizePassphrase` is the source's own loop-and-mutation algorithm,
    proved equal to it; the lemmas state the shape of the result. */
module Passphrase {
  import opened Text

  const Letters: string := "abcdefghijklmnopqrstuvwxyz"

  /** The characters the normaliser keeps (index.js:171): the 26 letters, then
      a space and the ten digits. */
  const Allowed: string := Letters + " 1234567890"

  /** The kept characters: the lower-case letters, the digits and space. */
  predicate IsAllowed(c: char)
  {
    IsLower(c) || IsDigit(c) || c == ' '
  }

  /** Every character of `s` is kept. */
  predicate AllAllowed(s: string)
  {
    forall i :: 0 <= i < |s| ==> IsAllowed(s[i])
  }

  /** `IsAllowed` is exactly membership in the source's `Allowed` string. */
  lemma AllowedIff(c: char)
    ensures IsAllowed(c) <==> c in Allowed
  {
    assert IsLower(c) <==> c in Letters;
    assert IsDigit(c) || c == ' ' <==> c in " 1234567890";
  }

  // ---------------------------------------------------------------- the steps

  /** The characters of `s` that are in `Allowed`, in order (index.js:172-174). */
  function KeepAllowed(s: string): (r: string)
    ensures AllAllowed(r)
    ensures forall c :: c in r ==> c in s
    decreases |s|
  {
    if s == [] then []
    else (if IsAllowed(s[0]) then [s[0]] else []) + KeepAllowed(s[1..])
  }

  /** Filtering one more character appends it if it is kept. */
  lemma {:induction false} KeepAllowedSnoc(s: string, c: char)
    ensures KeepAllowed(s + [c]) == KeepAllowed(s) + (if IsAllowed(c) then [c] else [])
    decreases |s|
  {
    if s == [] {
      assert KeepAllowed([c]) == (if IsAllowed(c) then [c] else []) + KeepAllowed([]);
    } else {
      var t, head := s + [c], if IsAllowed(s[0]) then [s[0]] else [];
      assert t[0] == s[0] && t[1..] == s[1..] + [c];
      assert KeepAllowed(t) == head + KeepAllowed(s[1..] + [c]);
      KeepAllowedSnoc(s[1..], c);
      assert KeepAllowed(s) == head + KeepAllowed(s[1..]);
    }
  }

  /** `s` with every run of spaces collapsed to a single space: the fixed point
      of the `while` loop at index.js:177. */
  function Squeeze(s: string): (r: string)
    ensures forall c :: c in r ==> c in s
    decreases |s|
  {
    if |s| < 2 then s
    else if s[0] == ' ' && s[1] == ' ' then Squeeze(s[1..])
    else [s[0]] + Squeeze(s[1..])
  }

  /** The words of more than one character (the `filter` at index.js:180). */
  function LongWords(ws: seq<string>): seq<string>
    decreases |ws|
  {
    if ws == [] then []
    else (if |ws[0]| > 1 then [ws[0]] else []) + LongWords(ws[1..])
  }

  /** The filter keeps exactly the words longer than one character. */
  lemma {:induction false} LongWordsMembers(ws: seq<string>)
    ensures forall w :: w in LongWords(ws) <==> w in ws && |w| > 1
    decreases |ws|
  {
    if ws != [] {
      LongWordsMembers(ws[1..]);
      assert forall w :: w in ws <==> w == ws[0] || w in ws[1..] by {
        assert ws == [ws[0]] + ws[1..];
      }
    }
  }

  /** No word occurs twice. */
  predicate Distinct(ws: seq<string>)
  {
    forall i, j :: 0 <= i < j < |ws| ==> ws[i] != ws[j]
  }

  /** The first occurrence of every word, in order (index.js:181-182). */
  function Dedup(ws: seq<string>): seq<string>
    decreases |ws|
  {
    if ws == [] then []
    else
      var d := Dedup(ws[..|ws| - 1]);
      var w := ws[|ws| - 1];
      if w in d then d else d + [w]
  }

  /** De-duplication keeps every word and repeats none. */
  lemma {:induction false} DedupMembers(ws: seq<string>)
    ensures forall w :: w in Dedup(ws) <==> w in ws
    ensures Distinct(Dedup(ws))
    decreases |ws|
  {
    if ws != [] {
      var p, x := ws[..|ws| - 1], ws[|ws| - 1];
      DedupMembers(p);
      assert forall v :: v in ws <==> v in p || v == x by {
        assert ws == p + [x];
      }
    }
  }

  /** The words the source feeds to its de-duplicating loop: `oWords` at index.js:180. */
  function Candidates(input: string): seq<string>
  {
    LongWords(Split(Trim(Squeeze(KeepAllowed(LowerStr(input)))), ' '))
  }

  /** `normalizePassphrase(input)` */
  function Normalized(input: string): string
  {
    Join(Dedup(Candidates(input)), ' ')
  }

  // ---------------------------------------------------------------- the algorithm

  /** Collapsing the first double space leaves the squeezed form unchanged and
      shortens the string. */
  lemma {:induction false} SqueezeReplaceFirst(o: string)
    requires Contains(o, "  ")
    ensures Squeeze(ReplaceFirst(o, "  ", " ")) == Squeeze(o)
    ensures |ReplaceFirst(o, "  ", " ")| < |o|
  {
    var k := IndexOf(o, "  ");
    var a, b := o[..k], o[k + 2..];
    assert o == a + [' ', ' '] + b by {
      assert o[k..k + 2] == "  ";
    }
    assert ReplaceFirst(o, "  ", " ") == a + [' '] + b;
    SqueezeCollapse(a, b);
  }

  lemma {:induction false} SqueezeCollapse(a: string, b: string)
    ensures Squeeze(a + [' ', ' '] + b) == Squeeze(a + [' '] + b)
    decreases |a|
  {
    var l, r := a + [' ', ' '] + b, a + [' '] + b;
    if a == [] {
      assert l[1..] == r;
    } else {
      SqueezeCollapse(a[1..], b);
      assert l[1..] == a[1..] + [' ', ' '] + b;
      assert r[1..] == a[1..] + [' '] + b;
    }
  }

  lemma {:induction false} NoAdjacentWhenAbsent(s: string)
    requires !Contains(s, "  ")
    ensures NoAdjacent(s, ' ')
  {
    forall i, j | 0 <= i && j == i + 1 && j < |s| ensures !(s[i] == ' ' && s[j] == ' ') {
      if s[i] == ' ' && s[j] == ' ' {
        assert OccursAt(s, "  ", i) by {
          assert s[i..i + 2] == [s[i], s[j]];
        }
        assert false;
      }
    }
  }

  /** Squeezing keeps the first character. */
  lemma {:induction false} SqueezeHead(s: string)
    requires s != []
    ensures Squeeze(s) != [] && Squeeze(s)[0] == s[0]
    decreases |s|
  {
    if |s| >= 2 && s[0] == ' ' && s[1] == ' ' {
      SqueezeHead(s[1..]);
    }
  }

  /** The squeezed form has no two spaces in a row. */
  lemma {:induction false} SqueezeNoAdjacent(s: string)
    ensures NoAdjacent(Squeeze(s), ' ')
    decreases |s|
  {
    if |s| >= 2 {
      SqueezeNoAdjacent(s[1..]);
      if !(s[0] == ' ' && s[1] == ' ') {
        var t := Squeeze(s[1..]);
        SqueezeHead(s[1..]);
        var r := [s[0]] + t;
        forall i, j | 0 <= i < |r| && 0 <= j < |r| && j == i + 1 ensures !(r[i] == ' ' && r[j] == ' ') {
          if i > 0 {
            assert r[i] == t[i - 1] && r[j] == t[j - 1];
          }
        }
      }
    }
  }

  /** A string without a double space is its own squeezed form. */
  lemma {:induction false} SqueezeFixed(s: string)
    requires NoAdjacent(s, ' ')
    ensures Squeeze(s) == s
    decreases |s|
  {
    if |s| >= 2 {
      assert NoAdjacent(s[1..], ' ') by {
        forall i, j | 0 <= i && j == i + 1 && j < |s[1..]| ensures !(s[1..][i] == ' ' && s[1..][j] == ' ') {
          assert s[1..][i] == s[i + 1] && s[1..][j] == s[j + 1];
        }
      }
      SqueezeFixed(s[1..]);
      assert s == [s[0]] + s[1..];
    }
  }

  /** The character loop of index.js:172-174: keep the characters found in `Allowed`. */
  method FilterAllowed(i: string) returns (o: string)
    ensures o == KeepAllowed(i)
  {
    o := "";
    for n := 0 to |i|
      invariant o == KeepAllowed(i[..n])
    {
      assert i[..n + 1] == i[..n] + [i[n]];
      KeepAllowedSnoc(i[..n], i[n]);
      if IsAllowed(i[n]) {
        o := o + [i[n]];
      }
    }
    assert i[..|i|] == i;
  }

  /** The rewriting loop of index.js:177: while a double space remains,
      replace the first one by a single space. */
  method CollapseSpaces(s: string) returns (o: string)
    ensures o == Squeeze(s)
    ensures !Contains(o, "  ")
  {
    o := s;
    while Contains(o, "  ")
      invariant Squeeze(o) == Squeeze(s)
      decreases |o|
    {
      SqueezeReplaceFirst(o);
      o := ReplaceFirst(o, "  ", " ");
    }
    NoAdjacentWhenAbsent(o);
    SqueezeFixed(o);
  }

  /** The loop of index.js:181-182: push each word not already pushed. */
  method UniqueWords(oWords: seq<string>) returns (nWords: seq<string>)
    ensures nWords == Dedup(oWords)
  {
    nWords := [];
    for n := 0 to |oWords|
      invariant nWords == Dedup(oWords[..n])
    {
      assert oWords[..n + 1][..n] == oWords[..n];
      if oWords[n] !in nWords {
        nWords := nWords + [oWords[n]];
      }
    }
    assert oWords[..|oWords|] == oWords;
  }

  /** `normalizePassphrase` as the source computes it (index.js:164-186). */
  method NormalizePassphrase(input: string) returns (out: string)
    ensures out == Normalized(input)
  {
    var i := LowerStr(input);
    var o := FilterAllowed(i);
    o := CollapseSpaces(o);
    var oWords := LongWords(Split(Trim(o), ' '));
    var nWords := UniqueWords(oWords);
    out := Join(nWords, ' ');
  }

  // ---------------------------------------------------------------- what the result looks like

  /** The characters the output's words are made of. */
  predicate IsWordChar(c: char)
  {
    IsLower(c) || IsDigit(c)
  }

  /** A word as the normaliser emits it: two or more characters of `a-z0-9`. */
  predicate GoodWord(w: string)
  {
    |w| >= 2 && forall c :: c in w ==> IsWordChar(c)
  }

  lemma GoodWordHasNoSpace(w: string)
    requires GoodWord(w)
    ensures |w| > 0 && ' ' !in w
  {
  }

  /** Every candidate word is a good word. */
  lemma {:induction false} CandidateWords(input: string)
    ensures forall w :: w in Candidates(input) ==> GoodWord(w)
  {
    var k := KeepAllowed(LowerStr(input));
    var t := Trim(Squeeze(k));
    SplitPieces(t, ' ');
    LongWordsMembers(Split(t, ' '));
    forall w | w in Candidates(input) ensures GoodWord(w) {
      assert w in Split(t, ' ') && |w| > 1;
      forall c | c in w ensures IsWordChar(c) {
        assert c in k && c != ' ';
        var j :| 0 <= j < |k| && k[j] == c;
      }
    }
  }

  /** The words the output is joined from: good words, none repeated, and
      exactly the candidates. */
  lemma {:induction false} OutputWords(input: string)
    ensures forall w :: w in Dedup(Candidates(input)) ==> GoodWord(w) && |w| > 0 && ' ' !in w
    ensures forall w :: w in Dedup(Candidates(input)) <==> w in Candidates(input)
    ensures Distinct(Dedup(Candidates(input)))
  {
    CandidateWords(input);
    DedupMembers(Candidates(input));
    forall w | w in Dedup(Candidates(input)) ensures |w| > 0 && ' ' !in w {
      GoodWordHasNoSpace(w);
    }
  }

  /** The output uses only `a-z`, the digits and space. */
  lemma {:induction false} NormalizedAlphabet(input: string)
    ensures AllAllowed(Normalized(input))
  {
    var d := Dedup(Candidates(input));
    OutputWords(input);
    JoinShape(d, ' ');
    var out := Join(d, ' ');
    forall i | 0 <= i < |out| ensures IsAllowed(out[i]) {
      var c := out[i];
      assert c in out;
      if c != ' ' {
        var w :| w in d && c in w;
        assert GoodWord(w);
      }
    }
  }

  /** The output never holds two spaces in a row and never starts or ends
      with a space. */
  lemma {:induction false} NormalizedSpacing(input: string)
    ensures WellSeparated(Normalized(input), ' ')
  {
    var d := Dedup(Candidates(input));
    OutputWords(input);
    JoinShape(d, ' ');
  }

  /** Split at its spaces, a non-empty output gives back the de-duplicated
      candidates: words of at least two characters of `a-z0-9`, none of them
      twice. */
  lemma {:induction false} NormalizedWords(input: string)
    ensures Normalized(input) != [] ==> Split(Normalized(input), ' ') == Dedup(Candidates(input))
    ensures Normalized(input) != [] ==> forall w :: w in Split(Normalized(input), ' ') ==> GoodWord(w)
    ensures Distinct(Split(Normalized(input), ' '))
  {
    var d := Dedup(Candidates(input));
    var out := Join(d, ' ');
    OutputWords(input);
    if d != [] {
      SplitJoin(d, ' ');
    }
  }

  /** The number of words the gate counts (`candidate.split(' ').length`,
      index.js:69): the number of distinct candidates, except that an empty
      result still counts as one word. */
  lemma {:induction false} WordCount(input: string)
    ensures |Split(Normalized(input), ' ')| == if Dedup(Candidates(input)) == [] then 1 else |Dedup(Candidates(input))|
  {
    var d := Dedup(Candidates(input));
    assert Normalized(input) == Join(d, ' ');
    JoinedCount(d) by {
      OutputWords(input);
    }
  }

  lemma {:induction false} JoinedCount(d: seq<string>)
    requires forall w :: w in d ==> |w| > 0 && ' ' !in w
    ensures |Split(Join(d, ' '), ' ')| == if d == [] then 1 else |d|
  {
    if d != [] {
      SplitJoin(d, ' ');
    } else {
      assert Split(Join(d, ' '), ' ') == [[]];
    }
  }

  /** The index of the first occurrence of `w` in `ws`. */
  function FirstIndex(ws: seq<string>, w: string): (k: nat)
    requires w in ws
    ensures k < |ws| && ws[k] == w && w !in ws[..k]
  {
    if ws[0] == w then 0
    else
      var k := FirstIndex(ws[1..], w);
      assert ws[..k + 1] == [ws[0]] + ws[1..][..k];
      k + 1
  }

  lemma {:induction false} FirstIndexOfPrefix(ws: seq<string>, n: nat, w: string)
    requires n <= |ws| && w in ws[..n]
    ensures FirstIndex(ws, w) == FirstIndex(ws[..n], w)
  {
    var k, k' := FirstIndex(ws, w), FirstIndex(ws[..n], w);
    assert ws[..n][..k'] == ws[..k'];
  }

  /** The kept words appear in the order of their first occurrences. */
  lemma {:induction false} DedupOrder(ws: seq<string>)
    ensures forall w :: w in Dedup(ws) ==> w in ws
    ensures forall i, j :: 0 <= i < j < |Dedup(ws)| ==>
      FirstIndex(ws, Dedup(ws)[i]) < FirstIndex(ws, Dedup(ws)[j])
    decreases |ws|
  {
    DedupMembers(ws);
    if ws != [] {
      var p, x := ws[..|ws| - 1], ws[|ws| - 1];
      var d, d' := Dedup(ws), Dedup(p);
      DedupMembers(p);
      DedupOrder(p);
      assert ws[..|p|] == p;
      forall y | y in p ensures FirstIndex(ws, y) == FirstIndex(p, y) {
        FirstIndexOfPrefix(ws, |p|, y);
      }
      if x !in p {
        var k := FirstIndex(ws, x);
        assert forall i :: 0 <= i < |p| ==> p[i] == ws[i];
        assert k == |p|;
      }
      forall i, j | 0 <= i < j < |d| ensures FirstIndex(ws, d[i]) < FirstIndex(ws, d[j]) {
        assert d[i] == d'[i] && d'[i] in d';
        if j < |d'| {
          assert d[j] == d'[j];
        } else {
          assert d[j] == x;
        }
      }
    }
  }

  /** The output's words are exactly the distinct candidate words, in the
      order in which each first occurs. */
  lemma {:induction false} NormalizedOrder(input: string)
    ensures forall w :: w in Split(Normalized(input), ' ') && w != [] <==> w in Candidates(input)
    ensures forall w :: w in Dedup(Candidates(input)) ==> w in Candidates(input)
    ensures forall i, j :: 0 <= i < j < |Dedup(Candidates(input))| ==>
      FirstIndex(Candidates(input), Dedup(Candidates(input))[i]) < FirstIndex(Candidates(input), Dedup(Candidates(input))[j])
  {
    var c := Candidates(input);
    var d := Dedup(c);
    OutputWords(input);
    DedupOrder(c);
    if d != [] {
      SplitJoin(d, ' ');
    } else {
      assert Split(Normalized(input), ' ') == [[]];
    }
  }

  // ---------------------------------------------------------------- idempotence

  lemma {:induction false} KeepAllowedIdentity(s: string)
    requires AllAllowed(s)
    ensures KeepAllowed(s) == s
    decreases |s|
  {
    if s != [] {
      KeepAllowedIdentity(s[1..]);
    }
  }

  lemma {:induction false} LongWordsIdentity(ws: seq<string>)
    requires forall w :: w in ws ==> |w| > 1
    ensures LongWords(ws) == ws
    decreases |ws|
  {
    if ws != [] {
      LongWordsIdentity(ws[1..]);
    }
  }

  lemma {:induction false} DedupIdentity(ws: seq<string>)
    requires Distinct(ws)
    ensures Dedup(ws) == ws
    decreases |ws|
  {
    if ws != [] {
      DedupIdentity(ws[..|ws| - 1]);
    }
  }

  lemma {:induction false} CleanEdges(y: string)
    requires AllAllowed(y) && WellSeparated(y, ' ')
    ensures y == [] || (!IsWhitespace(y[0]) && !IsWhitespace(y[|y| - 1]))
  {
  }

  /** Text already in normal form passes the character stages unchanged. */
  lemma {:induction false} CleanTextFixed(y: string)
    requires AllAllowed(y) && WellSeparated(y, ' ')
    ensures LowerStr(y) == y
    ensures Trim(Squeeze(KeepAllowed(y))) == y
  {
    assert LowerStr(y) == y by {
      LowerChangesIff(y);
    }
    assert KeepAllowed(y) == y by {
      KeepAllowedIdentity(y);
    }
    assert Squeeze(y) == y by {
      SqueezeFixed(y);
    }
    assert Trim(y) == y by {
      CleanEdges(y);
      TrimIdentity(y);
    }
  }

  /** Normalising a normalised passphrase changes nothing. */
  lemma {:induction false} NormalizedIdempotent(input: string)
    ensures Normalized(Normalized(input)) == Normalized(input)
  {
    var d := Dedup(Candidates(input));
    var y := Join(d, ' ');
    assert y == Normalized(input);
    OutputWords(input);
    if d == [] {
      assert y == [];
      assert Split(y, ' ') == [[]];
      assert Candidates(y) == [];
    } else {
      CleanJoin(d);
      CandidatesFromWords(y, d);
      DedupIdentity(d);
    }
  }

  // ---------------------------------------------------------------- examples

  // Literal inputs are parameters fixed by `requires` rather than literals in
  // the contract: the solver would otherwise unfold the recursive string
  // functions on them eagerly, which makes these proofs far more expensive.

  lemma {:induction false} KeepAllowedAppend(a: string, b: string)
    ensures KeepAllowed(a + b) == KeepAllowed(a) + KeepAllowed(b)
    decreases |a|
  {
    if a == [] {
      assert a + b == b;
    } else {
      assert (a + b)[0] == a[0];
      assert (a + b)[1..] == a[1..] + b;
      KeepAllowedAppend(a[1..], b);
    }
  }

  /** Of a repeated word only the first occurrence stays. */
  lemma {:induction false} DedupRepeat(a: string, b: string, c: string)
    requires a != b && a != c && b != c
    ensures Dedup([a, b, a, c]) == [a, b, c]
  {
    assert Dedup([a]) == [a] by {
      assert [a][..0] == [];
    }
    assert Dedup([a, b]) == [a, b] by {
      assert [a, b][..1] == [a];
    }
    assert Dedup([a, b, a]) == [a, b] by {
      assert [a, b, a][..2] == [a, b];
    }
    assert [a, b, a, c][..3] == [a, b, a];
  }

  /** Words already in normal form come through the character stages, the
      split and the length filter unchanged. */
  lemma {:induction false} CleanJoin(ws: seq<string>)
    requires |ws| >= 1 && forall w :: w in ws ==> GoodWord(w)
    ensures LowerStr(Join(ws, ' ')) == Join(ws, ' ')
    ensures Trim(Squeeze(KeepAllowed(Join(ws, ' ')))) == Join(ws, ' ')
    ensures LongWords(Split(Join(ws, ' '), ' ')) == ws
  {
    var y := Join(ws, ' ');
    forall w | w in ws ensures |w| > 0 && ' ' !in w {
      GoodWordHasNoSpace(w);
    }
    JoinShape(ws, ' ');
    assert AllAllowed(y) by {
      forall i | 0 <= i < |y| ensures IsAllowed(y[i]) {
        var c := y[i];
        assert c in y;
        if c != ' ' {
          var w :| w in ws && c in w;
          assert GoodWord(w);
        }
      }
    }
    CleanTextFixed(y);
    SplitJoin(ws, ' ');
    LongWordsIdentity(ws);
  }

  /** An input whose character stages leave words in normal form has exactly
      those words as candidates. */
  lemma {:induction false} CandidatesFromWords(input: string, ws: seq<string>)
    requires Trim(Squeeze(KeepAllowed(LowerStr(input)))) == Join(ws, ' ')
    requires |ws| >= 1 && forall w :: w in ws ==> GoodWord(w)
    ensures Candidates(input) == ws
  {
    CleanJoin(ws);
  }

  /** An input that lower-cases to words in normal form has exactly those
      words as candidates. */
  lemma {:induction false} CandidatesFromLower(input: string, ws: seq<string>)
    requires LowerStr(input) == Join(ws, ' ')
    requires |ws| >= 1 && forall w :: w in ws ==> GoodWord(w)
    ensures Candidates(input) == ws
  {
    CleanJoin(ws);
    CandidatesFromWords(input, ws);
  }

  /** The source's own examples: case folding, dropped punctuation and a merged
      apostrophe, dropped repeats and one-letter words. */
  lemma ExampleCase(input: string)
    requires input == "Abc Def"
    ensures Normalized(input) == "abc def"
  {
    var ws := ["abc", "def"];
    CaseFolded();
    ExampleWords();
    CandidatesFromLower(input, ws);
    DedupIdentity(ws);
  }

  lemma CaseFolded()
    ensures LowerStr("Abc Def") == Join(["abc", "def"], ' ') == "abc def"
  {
    assert LowerStr("Abc Def") == "abc def";
  }

  lemma ExampleWords()
    ensures GoodWord("abc") && GoodWord("def") && GoodWord("ghi") && GoodWord("cant")
  {
  }

  lemma ExampleRepeat()
    ensures Normalized("abc def abc ghi") == "abc def ghi"
  {
    var ws := ["abc", "def", "abc", "ghi"];
    RepeatJoined();
    ExampleWords();
    CleanJoin(ws);
    CandidatesFromLower("abc def abc ghi", ws);
    DedupRepeat("abc", "def", "ghi");
  }

  lemma RepeatJoined()
    ensures Join(["abc", "def", "abc", "ghi"], ' ') == "abc def abc ghi"
    ensures Join(["abc", "def", "ghi"], ' ') == "abc def ghi"
  {
  }

  /** A character that is not kept once lower-cased may be deleted from the
      input without changing the result: punctuation vanishes and
      `"can't"` merges into `"cant"`. */
  lemma {:induction false} DisallowedDropped(a: string, c: char, b: string)
    requires !IsAllowed(ToLower(c))
    ensures Normalized(a + [c] + b) == Normalized(a + b)
  {
    LowerStrAppend(a + [c], b);
    LowerStrAppend(a, [c]);
    LowerStrAppend(a, b);
    KeepAllowedAppend(LowerStr(a) + LowerStr([c]), LowerStr(b));
    KeepAllowedAppend(LowerStr(a), LowerStr([c]));
    KeepAllowedAppend(LowerStr(a), LowerStr(b));
    assert KeepAllowed(LowerStr([c])) == [] by {
      assert LowerStr([c]) == [ToLower(c)];
    }
    assert KeepAllowed(LowerStr(a + [c] + b)) == KeepAllowed(LowerStr(a + b));
  }

  /** A whole run of such characters may be deleted. */
  lemma {:induction false} DisallowedRunDropped(a: string, d: string, b: string)
    requires forall i :: 0 <= i < |d| ==> !IsAllowed(ToLower(d[i]))
    ensures Normalized(a + d + b) == Normalized(a + b)
    decreases |d|
  {
    if d != [] {
      assert a + d + b == a + [d[0]] + (d[1..] + b);
      DisallowedDropped(a, d[0], d[1..] + b);
      assert a + (d[1..] + b) == a + d[1..] + b;
      DisallowedRunDropped(a, d[1..], b);
    } else {
      assert a + d + b == a + b;
    }
  }

  lemma DisallowedPrefixDropped(d: string, b: string)
    requires forall i :: 0 <= i < |d| ==> !IsAllowed(ToLower(d[i]))
    ensures Normalized(d + b) == Normalized(b)
  {
    var e: string := [];
    assert e + d + b == d + b;
    assert e + b == b;
    DisallowedRunDropped(e, d, b);
  }

  // The punctuation example, one deleted run at a time.

  lemma LeadingBangDropped(x: string, y: string)
    requires x == "!Abc Def can't -! !!!!!" && y == "Abc Def can't -! !!!!!"
    ensures Normalized(x) == Normalized(y)
  {
    assert x == "!" + y;
    DisallowedPrefixDropped("!", y);
  }

  lemma ApostropheDropped(x: string, y: string)
    requires x == "Abc Def can't -! !!!!!" && y == "Abc Def cant -! !!!!!"
    ensures Normalized(x) == Normalized(y)
  {
    var a, b := "Abc Def can", "t -! !!!!!";
    assert x == a + "'" + b && a + b == y;
    DisallowedRunDropped(a, "'", b);
  }

  lemma DashBangDropped(x: string, y: string)
    requires x == "Abc Def cant -! !!!!!" && y == "Abc Def cant  !!!!!"
    ensures Normalized(x) == Normalized(y)
  {
    var a, b := "Abc Def cant ", " !!!!!";
    assert x == a + "-!" + b && a + b == y;
    DisallowedRunDropped(a, "-!", b);
  }

  lemma TrailingBangsDropped(x: string, y: string)
    requires x == "Abc Def cant  !!!!!" && y == "Abc Def cant  "
    ensures Normalized(x) == Normalized(y)
  {
    var b: string := "";
    assert x == y + "!!!!!" + b && y + b == y;
    DisallowedRunDropped(y, "!!!!!", b);
  }

  lemma TrailingLower(y: string, l: string)
    requires y == "Abc Def cant  " && l == "abc def cant  "
    ensures LowerStr(y) == l
  {
  }

  lemma TrailingKept(l: string)
    requires l == "abc def cant  "
    ensures KeepAllowed(l) == l
  {
    KeepAllowedIdentity(l);
  }

  /** The two trailing spaces collapse to one, which the trim removes. */
  lemma TrailingSpacesRemoved(w: string)
    requires w == "abc def cant"
    ensures Trim(Squeeze(w + [' ', ' '])) == w
  {
    SqueezeCollapse(w, []);
    assert w + [' ', ' '] + [] == w + [' ', ' '] && w + [' '] + [] == w + [' '];
    SqueezeFixed(w + [' ']);
    assert "" + w + " " == w + [' '];
    TrimPadded("", w, " ");
  }

  /** Lower-casing, filtering, collapsing and trimming leave the three words. */
  lemma TrailingCleaned(y: string, w: string)
    requires y == "Abc Def cant  " && w == "abc def cant"
    ensures Trim(Squeeze(KeepAllowed(LowerStr(y)))) == w
  {
    TrailingLower(y, w + [' ', ' ']);
    TrailingKept(w + [' ', ' ']);
    TrailingSpacesRemoved(w);
  }

  /** `"abc def cant"` is three distinct good words. */
  lemma ThreeWords(ws: seq<string>, w: string)
    requires ws == ["abc", "def", "cant"] && w == "abc def cant"
    ensures Join(ws, ' ') == w && Distinct(ws)
    ensures |ws| >= 1 && forall v :: v in ws ==> GoodWord(v)
  {
    var l := ["abc", "def", "cant"];
    assert Join(l, ' ') == "abc def cant";
    ExampleWords();
  }

  lemma TrailingSpacesNormalized(y: string)
    requires y == "Abc Def cant  "
    ensures Normalized(y) == "abc def cant"
  {
    var w := "abc def cant";
    var ws := ["abc", "def", "cant"];
    TrailingCleaned(y, w);
    ThreeWords(ws, w);
    CandidatesFromWords(y, ws);
    DedupIdentity(ws);
  }

  /** Punctuation is deleted and `"can't"` becomes `"cant"`. */
  lemma ExamplePunctuation(x: string)
    requires x == "!Abc Def can't -! !!!!!"
    ensures Normalized(x) == "abc def cant"
  {
    var y1, y2, y3, y4 := "Abc Def can't -! !!!!!", "Abc Def cant -! !!!!!", "Abc Def cant  !!!!!", "Abc Def cant  ";
    LeadingBangDropped(x, y1);
    ApostropheDropped(y1, y2);
    DashBangDropped(y2, y3);
    TrailingBangsDropped(y3, y4);
    TrailingSpacesNormalized(y4);
  }
}
