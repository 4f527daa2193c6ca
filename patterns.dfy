/** The compiled regular expressions of validator.py whose bodies are
    modelled, each as a predicate saying when the whole string matches the
    pattern between `^` and `$`. The predicates follow the patterns' parts
    in order; the lemmas after each one state the language it accepts in
    plain terms. How Python's `$` differs from "end of string" is modelled
    at the end of the module. */
module Patterns {
  import opened Text

  // ---------------------------------------------------------------------
  // The tracking-ID pattern: a product prefix, a dash, 4 to 10 digits, a
  // dash, 1 to 4 digits.

  predicate IsTidPrefix(p: string) {
    p == "UA" || p == "YT" || p == "MO"
  }

  /** The prefix, a dash, a greedy `\d{4,10}` that must stop at the second
      dash, then one to four digits up to the end. Backtracking cannot help
      `\d{4,10}`: the character after it must be `-`, never a digit. */
  predicate TidPattern(s: string) {
    && |s| >= 3
    && IsTidPrefix(s[..2])
    && s[2] == '-'
    && var n := DigitRun(s, 3);
       && 4 <= n <= 10
       && 3 + n < |s|
       && s[3 + n] == '-'
       && 1 <= |s| - (4 + n) <= 4
       && AllDigits(s[4 + n..])
  }

  /** Every prefix, dash, 4 to 10 digits, dash, 1 to 4 digits is accepted. */
  lemma TidCompose(p: string, account: string, property: string)
    requires IsTidPrefix(p)
    requires 4 <= |account| <= 10 && AllDigits(account)
    requires 1 <= |property| <= 4 && AllDigits(property)
    ensures TidPattern(p + "-" + account + "-" + property)
  {
    var s := p + "-" + account + "-" + property;
    var k := 3 + |account|;
    assert s[..2] == p;
    assert s[3..k] == account;
    assert s[k] == '-';
    DigitRunAt(s, 3, k);
    assert s[k + 1..] == property;
  }

  /** Every accepted string is a prefix, dash, 4 to 10 digits, dash, 1 to 4
      digits, and nothing else. */
  lemma TidDecompose(s: string) returns (p: string, account: string, property: string)
    requires TidPattern(s)
    ensures s == p + "-" + account + "-" + property
    ensures IsTidPrefix(p)
    ensures 4 <= |account| <= 10 && AllDigits(account)
    ensures 1 <= |property| <= 4 && AllDigits(property)
  {
    var n := DigitRun(s, 3);
    p, account, property := s[..2], s[3..3 + n], s[4 + n..];
    assert s == s[..2] + [s[2]] + s[3..3 + n] + [s[3 + n]] + s[4 + n..];
  }

  // ---------------------------------------------------------------------
  // The IPv4 pattern: four octets joined by dots, each octet one of three
  // alternatives (250 to 255, 200 to 249, or one to three digits whose
  // third-from-last is 0 or 1).

  /** One octet, by the pattern's three alternatives. The last, `[0-1]?\d?\d`,
      matches one or two digits, or three digits led by 0 or 1. */
  predicate OctetPattern(p: string) {
    || (|p| == 3 && p[0] == '2' && p[1] == '5' && '0' <= p[2] <= '5')
    || (|p| == 3 && p[0] == '2' && '0' <= p[1] <= '4' && IsDigit(p[2]))
    || (1 <= |p| <= 3 && AllDigits(p) && (|p| == 3 ==> p[0] == '0' || p[0] == '1'))
  }

  /** An octet in plain terms: one to three decimal digits worth at most 255. */
  predicate Octet(p: string) {
    1 <= |p| <= 3 && AllDigits(p) && DecimalValue(p) <= 255
  }

  /** No octet contains a dot, so the pattern matches exactly when the dots
      cut the string into four pieces that each match an octet. */
  predicate Ipv4Pattern(s: string) {
    var parts := Split(s, '.');
    |parts| == 4 && forall i :: 0 <= i < 4 ==> OctetPattern(parts[i])
  }

  lemma DecimalValueUpTo3(p: string)
    requires 1 <= |p| <= 3 && AllDigits(p)
    ensures |p| == 1 ==> DecimalValue(p) == DigitValue(p[0])
    ensures |p| == 2 ==> DecimalValue(p) == 10 * DigitValue(p[0]) + DigitValue(p[1])
    ensures |p| == 3 ==> DecimalValue(p) == 100 * DigitValue(p[0]) + 10 * DigitValue(p[1]) + DigitValue(p[2])
  {
    assert p[..|p| - 1][..0] == [];
    if |p| >= 2 {
      assert p[..|p| - 1][..|p| - 2] == p[..|p| - 2];
      if |p| == 3 {
        assert p[..1][..0] == [];
      }
    }
  }

  /** The octet alternatives accept exactly the one- to three-digit strings
      worth at most 255: `256` is rejected, `000` and `099` accepted. */
  lemma OctetPatternExactly(p: string)
    ensures OctetPattern(p) <==> Octet(p)
  {
    if 1 <= |p| <= 3 && AllDigits(p) {
      DecimalValueUpTo3(p);
    }
  }

  function DottedQuad(a: string, b: string, c: string, d: string): string {
    a + "." + b + "." + c + "." + d
  }

  lemma JoinFour(a: string, b: string, c: string, d: string)
    ensures Join([a, b, c, d], '.') == DottedQuad(a, b, c, d)
  {
    assert [a, b, c, d][1..] == [b, c, d];
    assert [b, c, d][1..] == [c, d];
    assert [c, d][1..] == [d];
    assert Join([c, d], '.') == c + "." + d;
    assert Join([b, c, d], '.') == b + "." + (c + "." + d);
    assert Join([a, b, c, d], '.') == a + "." + (b + "." + (c + "." + d));
  }

  /** Any four octets joined by dots are accepted. */
  lemma Ipv4Compose(a: string, b: string, c: string, d: string)
    requires Octet(a) && Octet(b) && Octet(c) && Octet(d)
    ensures Ipv4Pattern(DottedQuad(a, b, c, d))
  {
    var parts := [a, b, c, d];
    forall i | 0 <= i < 4
      ensures '.' !in parts[i] && OctetPattern(parts[i])
    {
      OctetPatternExactly(parts[i]);
    }
    SplitJoin(parts, '.');
    JoinFour(a, b, c, d);
  }

  /** Every accepted string is four octets joined by dots. */
  lemma Ipv4Decompose(s: string) returns (a: string, b: string, c: string, d: string)
    requires Ipv4Pattern(s)
    ensures s == DottedQuad(a, b, c, d)
    ensures Octet(a) && Octet(b) && Octet(c) && Octet(d)
  {
    var parts := Split(s, '.');
    a, b, c, d := parts[0], parts[1], parts[2], parts[3];
    assert parts == [a, b, c, d];
    JoinFour(a, b, c, d);
    OctetPatternExactly(a);
    OctetPatternExactly(b);
    OctetPatternExactly(c);
    OctetPatternExactly(d);
  }

  /** Four numbers up to 255 in decimal, joined by dots, as `"%d.%d.%d.%d"`
      writes them, are accepted. */
  lemma Ipv4FromNumbers(a: nat, b: nat, c: nat, d: nat)
    requires a <= 255 && b <= 255 && c <= 255 && d <= 255
    ensures Ipv4Pattern(DottedQuad(DecimalString(a), DecimalString(b), DecimalString(c), DecimalString(d)))
  {
    OctetFromNumber(a);
    OctetFromNumber(b);
    OctetFromNumber(c);
    OctetFromNumber(d);
    Ipv4Compose(DecimalString(a), DecimalString(b), DecimalString(c), DecimalString(d));
  }

  lemma OctetFromNumber(n: nat)
    requires n <= 255
    ensures Octet(DecimalString(n))
  {
  }

  // ---------------------------------------------------------------------
  // The document-path pattern: nothing, a lone slash, or a slash or question
  // mark followed by one or more non-whitespace characters.

  /** Either `/?` (nothing, or one slash) or `[/?]\S+` (a slash or a question
      mark followed by one or more characters that are not whitespace). */
  predicate PathPattern(s: string) {
    || s == "" || s == "/"
    || (|s| >= 2 && (s[0] == '/' || s[0] == '?') && forall i :: 1 <= i < |s| ==> !IsSpace(s[i]))
  }

  /** A non-empty accepted path starts with `/` or `?`, and holds no
      whitespace. */
  lemma PathShape(s: string)
    requires PathPattern(s) && s != ""
    ensures s[0] == '/' || s[0] == '?'
    ensures forall i :: 0 <= i < |s| ==> !IsSpace(s[i])
  {
  }

  /** Appending characters that are not whitespace to a non-empty accepted
      path gives an accepted path. */
  lemma PathExtend(s: string, t: string)
    requires PathPattern(s) && s != ""
    requires forall i :: 0 <= i < |t| ==> !IsSpace(t[i])
    ensures PathPattern(s + t)
  {
    if t != [] {
      var u := s + t;
      forall i | 1 <= i < |u|
        ensures !IsSpace(u[i])
      {
        if i >= |s| {
          assert u[i] == t[i - |s|];
        }
      }
    }
  }

  // ---------------------------------------------------------------------
  // The client-ID pattern: groups of 8, 4, 4, 4 and 12 hexadecimal digits of
  // either case, joined by dashes.

  predicate CidPattern(s: string) {
    && |s| == 36
    && AllHexDigits(s[..8]) && s[8] == '-'
    && AllHexDigits(s[9..13]) && s[13] == '-'
    && AllHexDigits(s[14..18]) && s[18] == '-'
    && AllHexDigits(s[19..23]) && s[23] == '-'
    && AllHexDigits(s[24..])
  }

  /** Five hex groups of the right lengths, joined by dashes, match the
      pattern; the version digit is the first of the third group and the
      variant digit the first of the fourth. */
  lemma CidCompose(a: string, b: string, c: string, d: string, e: string)
    requires |a| == 8 && |b| == 4 && |c| == 4 && |d| == 4 && |e| == 12
    requires AllHexDigits(a) && AllHexDigits(b) && AllHexDigits(c) && AllHexDigits(d) && AllHexDigits(e)
    ensures CidPattern(a + "-" + b + "-" + c + "-" + d + "-" + e)
    ensures (a + "-" + b + "-" + c + "-" + d + "-" + e)[14] == c[0]
    ensures (a + "-" + b + "-" + c + "-" + d + "-" + e)[19] == d[0]
  {
    var s := a + "-" + b + "-" + c + "-" + d + "-" + e;
    assert s[..8] == a;
    assert s[9..13] == b;
    assert s[14..18] == c;
    assert s[19..23] == d;
    assert s[24..] == e;
  }

  // ---------------------------------------------------------------------
  // Python's `$`

  /** What `regex.match(s)` reports for a pattern `^body$` compiled without
      re.MULTILINE: `$` matches at the end of the string and also just
      before a newline that ends it, so the body may match either the whole
      string or the whole string less a final newline. */
  predicate MatchDollar(body: string -> bool, s: string) {
    body(s) || (|s| > 0 && s[|s| - 1] == '\n' && body(s[..|s| - 1]))
  }

  /** An accepted tracking ID ends with a digit. */
  lemma TidEndsWithDigit(s: string)
    ensures TidPattern(s) ==> |s| > 0 && IsDigit(s[|s| - 1])
  {
    if TidPattern(s) {
      var n := DigitRun(s, 3);
      assert s[4 + n..][|s| - (4 + n) - 1] == s[|s| - 1];
    }
  }

  /** An accepted dotted quad ends with a digit. */
  lemma Ipv4EndsWithDigit(s: string)
    ensures Ipv4Pattern(s) ==> |s| > 0 && IsDigit(s[|s| - 1])
  {
    if Ipv4Pattern(s) {
      var a, b, c, d := Ipv4Decompose(s);
      assert s[|s| - 1] == d[|d| - 1];
    }
  }

  /** Every accepted tracking ID followed by a newline is still matched by
      the pattern as compiled, though the strict reading rejects it. */
  lemma TidTrailingNewline(s: string)
    requires TidPattern(s)
    ensures MatchDollar(TidPattern, s + "\n")
    ensures !TidPattern(s + "\n")
  {
    var t := s + "\n";
    assert t[..|t| - 1] == s;
    TidEndsWithDigit(t);
  }

  /** Every accepted dotted quad followed by a newline is still matched by
      the pattern as compiled, though the strict reading rejects it. */
  lemma Ipv4TrailingNewline(s: string)
    requires Ipv4Pattern(s)
    ensures MatchDollar(Ipv4Pattern, s + "\n")
    ensures !Ipv4Pattern(s + "\n")
  {
    var t := s + "\n";
    assert t[..|t| - 1] == s;
    Ipv4EndsWithDigit(t);
  }

  /** Every accepted path followed by a newline, and so a lone newline too,
      is still matched by the pattern as compiled, though the strict reading
      rejects it. */
  lemma PathTrailingNewline(s: string)
    requires PathPattern(s)
    ensures MatchDollar(PathPattern, s + "\n")
    ensures !PathPattern(s + "\n")
  {
    var t := s + "\n";
    assert t[..|t| - 1] == s;
    assert t[|t| - 1] == '\n';
  }

  /** The tracking IDs of the doctests, and the one the `$` lets through. */
  lemma TidExamples()
    ensures TidPattern("UA-1234-5")
    ensures !TidPattern("UA-XXXX-Y")
    ensures MatchDollar(TidPattern, "UA-1234-5\n") && !TidPattern("UA-1234-5\n")
  {
    TidCompose("UA", "1234", "5");
    assert "UA" + "-" + "1234" + "-" + "5" == "UA-1234-5";
    TidTrailingNewline("UA-1234-5");
    assert "UA-1234-5" + "\n" == "UA-1234-5\n";
    assert DigitRun("UA-XXXX-Y", 3) == 0;
  }

  /** The dotted quad of the doctests. */
  lemma Ipv4Examples()
    ensures Ipv4Pattern("1.2.3.4")
  {
    Ipv4FromNumbers(1, 2, 3, 4);
    assert DottedQuad(DecimalString(1), DecimalString(2), DecimalString(3), DecimalString(4)) == "1.2.3.4";
  }

  /** An octet of 256 is out of range, so no dotted string that starts with
      it matches, whatever follows. */
  lemma Ipv4RejectsLargeOctet(rest: string)
    ensures !Ipv4Pattern("256." + rest)
  {
    assert "256." + rest == "256" + ['.'] + rest;
    SplitAfterPiece("256", rest, '.');
  }

  /** The path of the doctests, a lone `?`, and the lone newline the `$`
      lets through. */
  lemma PathExamples()
    ensures PathPattern("/foo") && !PathPattern("?")
    ensures MatchDollar(PathPattern, "\n") && !PathPattern("\n")
  {
    PathTrailingNewline("");
    assert "" + "\n" == "\n";
  }
}
