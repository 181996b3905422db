/** The e-mail address shape that `validateEmail` tests (index.js:90), written
    out by hand as predicates instead of a regular expression, and the
    transformation applied before the test (index.js:87-88).  Characters follow
    the ASCII model of module Text: `\s` is ASCII white space. */
module Email {
  import opened Text

  /** The punctuation excluded from an unquoted local part: `<>()[]\.,;:@"`. */
  predicate IsSpecial(c: char)
  {
    c == '<' || c == '>' || c == '(' || c == ')' || c == '[' || c == ']' || c == '\\'
    || c == '.' || c == ',' || c == ';' || c == ':' || c == '@' || c == '"'
  }

  /** `[^<>()\[\]\\.,;:\s@"]`: the characters of an unquoted local part. */
  predicate IsLocalChar(c: char)
  {
    !IsSpecial(c) && !IsWhitespace(c)
  }

  /** The characters that JavaScript's `.` does not match. */
  predicate IsLineTerminator(c: char)
  {
    c == '\n' || c == '\r' || c == '\U{2028}' || c == '\U{2029}'
  }

  /** `[^…]+(\.[^…]+)*`: non-empty runs of local characters joined by single
      dots, with no dot at either end. */
  predicate DotAtom(s: string)
  {
    s != [] && WellSeparated(s, '.') && forall i :: 0 <= i < |s| ==> s[i] == '.' || IsLocalChar(s[i])
  }

  /** `".+"`: at least one character between two double quotes, none of them a
      line terminator (a quote or an `@` inside is allowed). */
  predicate QuotedString(s: string)
  {
    |s| >= 3 && s[0] == '"' && s[|s| - 1] == '"' && forall i :: 0 < i < |s| - 1 ==> !IsLineTerminator(s[i])
  }

  predicate LocalPart(s: string)
  {
    DotAtom(s) || QuotedString(s)
  }

  /** `[0-9]{1,3}` */
  predicate IsOctetText(w: string)
  {
    1 <= |w| <= 3 && forall i :: 0 <= i < |w| ==> IsDigit(w[i])
  }

  /** `\[[0-9]{1,3}\.[0-9]{1,3}\.[0-9]{1,3}\.[0-9]{1,3}\]` */
  predicate AddressLiteral(s: string)
  {
    |s| >= 2 && s[0] == '[' && s[|s| - 1] == ']' &&
    var parts := Split(s[1..|s| - 1], '.');
    |parts| == 4 && forall i :: 0 <= i < 4 ==> IsOctetText(parts[i])
  }

  /** `[a-zA-Z\-0-9]` */
  predicate IsLabelChar(c: char)
  {
    IsLetter(c) || IsDigit(c) || c == '-'
  }

  /** `([a-zA-Z\-0-9]+\.)+[a-zA-Z]{2,}`: label characters and single dots, no
      dot first, and after some dot at least two characters that are all
      letters up to the end (so that dot is the last one). */
  predicate HostName(s: string)
  {
    WellSeparated(s, '.')
    && (forall i :: 0 <= i < |s| ==> s[i] == '.' || IsLabelChar(s[i]))
    && exists k :: 0 <= k < |s| - 2 && s[k] == '.' && forall j :: k < j < |s| ==> IsLetter(s[j])
  }

  predicate DomainPart(s: string)
  {
    AddressLiteral(s) || HostName(s)
  }

  /** The whole expression, anchored at both ends: some `@` splits the string
      into a local part and a domain. */
  predicate EmailShape(s: string)
  {
    exists k :: 0 <= k < |s| && s[k] == '@' && LocalPart(s[..k]) && DomainPart(s[k + 1..])
  }

  /** The test as a decision: split at the last `@`. */
  predicate IsEmail(s: string)
  {
    var k := LastIndexOf(s, '@');
    k >= 0 && LocalPart(s[..k]) && DomainPart(s[k + 1..])
  }

  /** An address literal has no `@`: it is brackets around dot-joined digits. */
  lemma {:induction false} AddressLiteralNoAt(s: string)
    requires AddressLiteral(s)
    ensures forall i :: 0 <= i < |s| ==> s[i] != '@'
  {
    var inner := s[1..|s| - 1];
    var parts := Split(inner, '.');
    forall w | w in parts ensures |w| > 0 && '.' !in w && '@' !in w {
      var i :| 0 <= i < 4 && parts[i] == w;
      assert IsOctetText(parts[i]);
    }
    JoinSplit(inner, '.');
    JoinShape(parts, '.');
    forall i | 0 <= i < |s| ensures s[i] != '@' {
      if 0 < i < |s| - 1 {
        assert s[i] == inner[i - 1];
        assert inner[i - 1] in Join(parts, '.');
      }
    }
  }

  /** No domain contains an `@`. */
  lemma DomainNoAt(s: string)
    requires DomainPart(s)
    ensures forall i :: 0 <= i < |s| ==> s[i] != '@'
  {
    if AddressLiteral(s) {
      AddressLiteralNoAt(s);
    }
  }

  /** Since no domain contains an `@`, the only split that can succeed is the
      one at the last `@`: the two formulations agree on every string. */
  lemma EmailAtLastAt(s: string)
    ensures EmailShape(s) <==> IsEmail(s)
  {
    var m := LastIndexOf(s, '@');
    if EmailShape(s) {
      var k :| 0 <= k < |s| && s[k] == '@' && LocalPart(s[..k]) && DomainPart(s[k + 1..]);
      DomainNoAt(s[k + 1..]);
      assert m == k;
    }
    if IsEmail(s) {
      assert 0 <= m < |s| && s[m] == '@' && LocalPart(s[..m]) && DomainPart(s[m + 1..]);
    }
  }

  /** What the stage tests: the trimmed value, lower-cased when the factory's
      `transformEmailLowerCase` flag is on (index.js:87-88). */
  function Prepare(value: string, lowerCase: bool): (r: string)
    ensures r == [] || (!IsWhitespace(r[0]) && !IsWhitespace(r[|r| - 1]))
    ensures lowerCase ==> forall i :: 0 <= i < |r| ==> !IsUpper(r[i])
  {
    var t := Trim(value);
    if lowerCase then LowerStr(t) else t
  }

  /** A string with exactly one `@` matches exactly when that split does. */
  lemma SingleAt(s: string, k: int)
    requires 0 <= k < |s| && s[k] == '@'
    requires forall j :: 0 <= j < |s| && j != k ==> s[j] != '@'
    ensures EmailShape(s) <==> LocalPart(s[..k]) && DomainPart(s[k + 1..])
  {
  }

  // The accept and reject examples of the library's own tests.

  lemma AcceptsPlain()
    ensures EmailShape("a@b.co")
  {
    var s := "a@b.co";
    assert HostName(s[2..]) by {
      assert s[2..][1] == '.';
    }
    assert s[1] == '@' && DotAtom(s[..1]);
  }

  lemma AcceptsSubdomain()
    ensures EmailShape("a@b.c.co")
  {
    var s := "a@b.c.co";
    assert HostName(s[2..]) by {
      assert s[2..][3] == '.';
    }
    assert s[1] == '@' && DotAtom(s[..1]);
  }

  lemma AcceptsDottedLocal()
    ensures EmailShape("a.b@b.co")
  {
    var s := "a.b@b.co";
    assert HostName(s[4..]) by {
      assert s[4..][1] == '.';
    }
    assert s[3] == '@' && DotAtom(s[..3]);
  }

  lemma AcceptsTwoDots()
    ensures EmailShape("a.b.c@b.co")
  {
    var s := "a.b.c@b.co";
    assert HostName(s[6..]) by {
      assert s[6..][1] == '.';
    }
    assert s[5] == '@' && DotAtom(s[..5]);
  }

  lemma RejectsShortTopLabel()
    ensures !EmailShape("a@b.c")
  {
    SingleAt("a@b.c", 1);
  }

  lemma RejectsLeadingDomainDot()
    ensures !EmailShape("a@.b.co")
  {
    SingleAt("a@.b.co", 1);
  }

  lemma RejectsTrailingDomainDot()
    ensures !EmailShape("a@b.co.")
  {
    SingleAt("a@b.co.", 1);
  }

  lemma RejectsEmptyLabel()
    ensures !EmailShape("a@b..c.co")
  {
    var s := "a@b..c.co";
    SingleAt(s, 1);
    var d := s[2..];
    assert !DomainPart(d) by {
      assert d[0] != '[';
      assert d[1] == '.' && d[2] == '.';
    }
  }

  lemma RejectsSingleLabel()
    ensures !EmailShape("a@b")
  {
    SingleAt("a@b", 1);
  }

  lemma RejectsEmptyLocal()
    ensures !EmailShape("@b.co")
  {
    SingleAt("@b.co", 0);
  }

  lemma RejectsEmptyDomain()
    ensures !EmailShape("a@")
  {
    SingleAt("a@", 1);
  }

  lemma RejectsTrailingLocalDot()
    ensures !EmailShape("a.@b.co")
  {
    SingleAt("a.@b.co", 2);
  }

  lemma RejectsLeadingLocalDot()
    ensures !EmailShape(".a@b.co")
  {
    SingleAt(".a@b.co", 2);
  }

  lemma RejectsDotsAroundLocal()
    ensures !EmailShape(".a.@b.co")
  {
    SingleAt(".a.@b.co", 3);
  }

  lemma RejectsDoubleLocalDot()
    ensures !EmailShape("a..b@b.co")
  {
    var s := "a..b@b.co";
    SingleAt(s, 4);
    var l := s[..4];
    assert !LocalPart(l) by {
      assert l[0] != '"';
      assert l[1] == '.' && l[2] == '.';
    }
  }

  /** A run of local characters is a local part on its own. */
  lemma PlainLocal(w: string)
    requires w != [] && forall i :: 0 <= i < |w| ==> IsLocalChar(w[i])
    ensures DotAtom(w)
  {
  }

  /** One label, a dot and a top-level label of two or more letters. */
  lemma TwoLabelHost(name: string, top: string)
    requires name != [] && forall i :: 0 <= i < |name| ==> IsLabelChar(name[i])
    requires |top| >= 2 && forall i :: 0 <= i < |top| ==> IsLetter(top[i])
    ensures HostName(name + "." + top)
  {
    var s := name + "." + top;
    var k := |name|;
    assert forall i :: 0 <= i < |s| && i != k ==> s[i] != '.' && IsLabelChar(s[i]);
    assert s[k] == '.' && forall j :: k < j < |s| ==> IsLetter(s[j]);
  }

  /** The address of the library's trimming test, in capitals and in lower
      case. */
  lemma AcceptsCapitals()
    ensures EmailShape("TEST@SOME.NET")
  {
    var u := "TEST@SOME.NET";
    SingleAt(u, 4);
    assert u[5..] == "SOME" + "." + "NET";
    TwoLabelHost("SOME", "NET");
    PlainLocal(u[..4]);
  }

  lemma AcceptsLowered()
    ensures EmailShape("test@some.net")
  {
    var l := "test@some.net";
    SingleAt(l, 4);
    assert l[5..] == "some" + "." + "net";
    TwoLabelHost("some", "net");
    PlainLocal(l[..4]);
  }
}
