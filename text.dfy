/** The string helpers of scrape_yio.py: `namify`, `clean_text`,
    `subject_url`, and the organisation id that `extract_from_row` pulls off
    the end of an organisation URL with the pattern `/(\d+)$`. */
module Text {
  import opened Wrappers
  import opened Strings

  /** Whitespace as Python's `str.isspace` (and so `str.strip` and the
      regular expression `\s`) sees it, restricted to ASCII: tab, line feed,
      vertical tab, form feed, carriage return, the four separators
      0x1C-0x1F, and the blank. */
  predicate IsSpace(c: char)
  {
    9 <= c as int <= 13 || 28 <= c as int <= 32
  }

  predicate IsUpper(c: char)
  {
    'A' <= c <= 'Z'
  }

  predicate IsDigit(c: char)
  {
    '0' <= c <= '9'
  }

  /** ASCII lower-casing of one character. */
  function Lower(c: char): (l: char)
    ensures IsUpper(c) ==> 'a' <= l <= 'z' && l as int == c as int + 32
    ensures !IsUpper(c) ==> l == c
  {
    if IsUpper(c) then (c as int + 32) as char else c
  }

  predicate AllSpace(s: string)
  {
    forall i :: 0 <= i < |s| ==> IsSpace(s[i])
  }

  /** No whitespace at either end. */
  predicate Trimmed(s: string)
  {
    s == [] || (!IsSpace(s[0]) && !IsSpace(s[|s| - 1]))
  }

  /** Every whitespace character is the blank `' '`. */
  predicate OnlyBlanks(s: string)
  {
    forall i :: 0 <= i < |s| ==> IsSpace(s[i]) ==> s[i] == ' '
  }

  /** No two whitespace characters stand next to each other. */
  predicate NoDoubleSpace(s: string)
  {
    forall i, j :: 0 <= i < |s| && 0 <= j < |s| && j == i + 1 ==> !(IsSpace(s[i]) && IsSpace(s[j]))
  }

  /** The string with every whitespace character deleted. */
  function RemoveSpace(s: string): string
  {
    if s == [] then []
    else (if IsSpace(s[0]) then [] else [s[0]]) + RemoveSpace(s[1..])
  }

  /** The number of whitespace characters that begin `s`. */
  function LeadingSpaces(s: string): (n: nat)
    ensures n <= |s|
    ensures AllSpace(s[..n])
    ensures n < |s| ==> !IsSpace(s[n])
  {
    if s != [] && IsSpace(s[0]) then
      var n := LeadingSpaces(s[1..]);
      assert s[..n + 1] == [s[0]] + s[1..][..n];
      n + 1
    else 0
  }

  /** The number of whitespace characters that end `s`. */
  function TrailingSpaces(s: string): (n: nat)
    ensures n <= |s|
    ensures AllSpace(s[|s| - n..])
    ensures n < |s| ==> !IsSpace(s[|s| - n - 1])
  {
    if s != [] && IsSpace(s[|s| - 1]) then
      var t := s[..|s| - 1];
      var n := TrailingSpaces(t);
      var u, v := s[|s| - (n + 1)..], t[|t| - n..];
      assert AllSpace(u) by {
        forall i | 0 <= i < |u|
          ensures IsSpace(u[i])
        {
          if i < n {
            assert u[i] == v[i];
          }
        }
      }
      n + 1
    else 0
  }

  /** Python's `s.strip()`: the slice of `s` that follows its leading
      whitespace and leaves only whitespace after it, and that neither starts
      nor ends with whitespace itself, which fixes it uniquely. */
  function Strip(s: string): (r: string)
    ensures Trimmed(r)
    ensures var n := LeadingSpaces(s);
              n + |r| <= |s| && r == s[n..n + |r|] && AllSpace(s[n + |r|..])
  {
    var n := LeadingSpaces(s);
    var m := TrailingSpaces(s[n..]);
    assert s[n..][|s[n..]| - m..] == s[|s| - m..];
    s[n..|s| - m]
  }

  lemma {:induction false} RemoveSpaceConcat(a: string, b: string)
    ensures RemoveSpace(a + b) == RemoveSpace(a) + RemoveSpace(b)
  {
    if a == [] {
      assert a + b == b;
    } else {
      assert (a + b)[1..] == a[1..] + b;
      RemoveSpaceConcat(a[1..], b);
    }
  }

  lemma {:induction false} RemoveSpaceAllSpace(s: string)
    requires AllSpace(s)
    ensures RemoveSpace(s) == []
  {
    if s != [] {
      RemoveSpaceAllSpace(s[1..]);
    }
  }

  /** Deleting whitespace before or after stripping gives the same string. */
  lemma StripKeepsContent(s: string)
    ensures RemoveSpace(Strip(s)) == RemoveSpace(s)
  {
    var r := Strip(s);
    var n := LeadingSpaces(s);
    var lead, trail := s[..n], s[n + |r|..];
    assert s == lead + (r + trail);
    RemoveSpaceConcat(lead, r + trail);
    RemoveSpaceConcat(r, trail);
    RemoveSpaceAllSpace(lead);
    RemoveSpaceAllSpace(trail);
  }

  /** A string without whitespace at its ends strips to itself. */
  lemma StripTrimmed(s: string)
    requires Trimmed(s)
    ensures Strip(s) == s
  {
  }

  /** `re.sub("\s+", " ", s)`: each maximal run of whitespace becomes one
      blank. A whitespace character followed by another is dropped; the last
      one of a run is replaced by `' '`. */
  function Collapse(s: string): (r: string)
    ensures |r| == 0 <==> |s| == 0
    ensures |s| > 0 ==> (IsSpace(r[0]) <==> IsSpace(s[0]))
    ensures |s| > 0 ==> (IsSpace(r[|r| - 1]) <==> IsSpace(s[|s| - 1]))
    ensures OnlyBlanks(r)
    ensures NoDoubleSpace(r)
    ensures RemoveSpace(r) == RemoveSpace(s)
  {
    if s == [] then []
    else if IsSpace(s[0]) then
      if |s| > 1 && IsSpace(s[1]) then Collapse(s[1..])
      else
        var t := Collapse(s[1..]);
        ConsKeepsShape(' ', t);
        [' '] + t
    else
      var t := Collapse(s[1..]);
      ConsKeepsShape(s[0], t);
      [s[0]] + t
  }

  lemma ConsKeepsShape(c: char, t: string)
    requires OnlyBlanks(t) && NoDoubleSpace(t)
    requires IsSpace(c) ==> c == ' ' && (t == [] || !IsSpace(t[0]))
    ensures OnlyBlanks([c] + t) && NoDoubleSpace([c] + t)
    ensures RemoveSpace([c] + t) == (if IsSpace(c) then [] else [c]) + RemoveSpace(t)
  {
    assert ([c] + t)[1..] == t;
  }

  /** A string that already uses single blanks as its only whitespace is
      left alone by `Collapse`. */
  lemma {:induction false} CollapseCollapsed(s: string)
    requires OnlyBlanks(s) && NoDoubleSpace(s)
    ensures Collapse(s) == s
  {
    if s != [] {
      var t := s[1..];
      assert OnlyBlanks(t) && NoDoubleSpace(t) by {
        forall i, j | 0 <= i < |t| && 0 <= j < |t| && j == i + 1
          ensures !(IsSpace(t[i]) && IsSpace(t[j]))
        {
          assert t[i] == s[i + 1] && t[j] == s[j + 1];
        }
      }
      CollapseCollapsed(t);
      if |s| > 1 {
        assert !(IsSpace(s[0]) && IsSpace(s[1]));
      }
      assert s == [s[0]] + t;
    }
  }

  /** `clean_text` (scrape_yio.py:33-35): `re.sub("\s+", " ", s.strip())`.
      The result has no whitespace at its ends, no two whitespace characters
      in a row, no whitespace but the blank, and the same non-whitespace
      characters as `s` in the same order. */
  function CleanText(s: string): (r: string)
    ensures Trimmed(r)
    ensures OnlyBlanks(r)
    ensures NoDoubleSpace(r)
    ensures RemoveSpace(r) == RemoveSpace(s)
  {
    StripKeepsContent(s);
    Collapse(Strip(s))
  }

  /** Cleaning text twice is the same as cleaning it once. */
  lemma CleanTextIdempotent(s: string)
    ensures CleanText(CleanText(s)) == CleanText(s)
  {
    var r := CleanText(s);
    StripTrimmed(r);
    CollapseCollapsed(r);
  }

  /** The words of `s`: its maximal runs of non-whitespace characters, in
      order. */
  function Words(s: string): (ws: seq<string>)
    ensures forall i :: 0 <= i < |ws| ==> |ws[i]| > 0
    ensures |s| > 0 && !IsSpace(s[0]) ==> |ws| > 0 && ws[0][0] == s[0]
  {
    if s == [] then []
    else if IsSpace(s[0]) then Words(s[1..])
    else
      var w := Words(s[1..]);
      if |s| == 1 || IsSpace(s[1]) then [[s[0]]] + w
      else [[s[0]] + w[0]] + w[1..]
  }

  /** Collapsing whitespace runs keeps the words, in order. */
  lemma {:induction false} CollapseWords(s: string)
    ensures Words(Collapse(s)) == Words(s)
  {
    if s != [] {
      var t := Collapse(s[1..]);
      CollapseWords(s[1..]);
      if IsSpace(s[0]) {
        if !(|s| > 1 && IsSpace(s[1])) {
          assert ([' '] + t)[1..] == t;
        }
      } else {
        assert ([s[0]] + t)[1..] == t;
      }
    }
  }

  /** Whitespace before a string adds no word. */
  lemma {:induction false} WordsAfterSpace(a: string, b: string)
    requires AllSpace(a)
    ensures Words(a + b) == Words(b)
  {
    if a != [] {
      var ab := a + b;
      assert ab[0] == a[0] && IsSpace(a[0]);
      assert ab[1..] == a[1..] + b;
      assert Words(ab) == Words(ab[1..]);
      WordsAfterSpace(a[1..], b);
    } else {
      assert a + b == b;
    }
  }

  /** Whitespace after a string adds no word. */
  lemma {:induction false} WordsBeforeSpace(a: string, b: string)
    requires AllSpace(b)
    ensures Words(a + b) == Words(a)
  {
    if a == [] {
      assert a + b == b;
      WordsAfterSpace(b, []);
      assert b + [] == b;
    } else {
      assert (a + b)[1..] == a[1..] + b;
      WordsBeforeSpace(a[1..], b);
      if |a| == 1 {
        assert a[1..] + b == b;
      }
    }
  }

  /** Stripping keeps the words, in order. */
  lemma StripWords(s: string)
    ensures Words(Strip(s)) == Words(s)
  {
    var r := Strip(s);
    var n := LeadingSpaces(s);
    var lead, trail := s[..n], s[n + |r|..];
    assert s == lead + (r + trail);
    WordsAfterSpace(lead, r + trail);
    WordsBeforeSpace(r, trail);
  }

  /** A string with no whitespace at its ends and single blanks as its only
      whitespace is its words joined by single blanks. */
  lemma {:induction false} CleanIsJoinedWords(r: string)
    requires Trimmed(r) && OnlyBlanks(r) && NoDoubleSpace(r)
    ensures r == Join(Words(r), " ")
    decreases |r|
  {
    if |r| > 1 {
      var t := r[1..];
      assert OnlyBlanks(t) && NoDoubleSpace(t) by {
        forall i, j | 0 <= i < |t| && 0 <= j < |t| && j == i + 1
          ensures !(IsSpace(t[i]) && IsSpace(t[j]))
        {
          assert t[i] == r[i + 1] && t[j] == r[j + 1];
        }
      }
      if IsSpace(r[1]) {
        var u := r[2..];
        assert r[1] == ' ';
        assert !IsSpace(r[2]) by {
          assert !(IsSpace(r[1]) && IsSpace(r[2]));
        }
        assert t[1..] == u;
        assert OnlyBlanks(u) && NoDoubleSpace(u) by {
          forall i, j | 0 <= i < |u| && 0 <= j < |u| && j == i + 1
            ensures !(IsSpace(u[i]) && IsSpace(u[j]))
          {
            assert u[i] == r[i + 2] && u[j] == r[j + 2];
          }
        }
        CleanIsJoinedWords(u);
        var w := Words(u);
        assert Words(t) == w;
        assert Words(r) == [[r[0]]] + w;
        assert r == [r[0]] + " " + u;
      } else {
        CleanIsJoinedWords(t);
        var w := Words(t);
        JoinOntoFirst(r[0], w, " ");
        assert r == [r[0]] + t;
      }
    }
  }

  /** `clean_text` keeps the words of its input, in order, and puts exactly
      one blank between neighbouring words and none at the ends. */
  lemma CleanTextWords(s: string)
    ensures Words(CleanText(s)) == Words(s)
    ensures CleanText(s) == Join(Words(s), " ")
  {
    StripWords(s);
    CollapseWords(Strip(s));
    CleanIsJoinedWords(CleanText(s));
  }

  /** One character of `namify`: a blank becomes `'_'`, then the character
      is lower-cased. */
  function NamifyChar(c: char): char
  {
    Lower(if c == ' ' then '_' else c)
  }

  /** `namify` (scrape_yio.py:28-30): `s.strip().replace(" ", "_").lower()`,
      one character at a time over the stripped heading. */
  function Namify(heading: string): (r: string)
    ensures |r| == |Strip(heading)|
    ensures forall i :: 0 <= i < |r| ==> r[i] != ' ' && !IsUpper(r[i])
  {
    var t := Strip(heading);
    seq(|t|, i requires 0 <= i < |t| => NamifyChar(t[i]))
  }

  /** A column name has the length of the stripped heading, no whitespace
      at its ends, no blank and no upper-case letter; a blank of the
      stripped heading becomes `'_'`, an upper-case letter its lower-case
      form, and every other character stays where it was. */
  lemma NamifyShape(heading: string)
    ensures var r, t := Namify(heading), Strip(heading);
      && |r| == |t|
      && Trimmed(r)
      && (forall i :: 0 <= i < |r| ==> r[i] != ' ' && !IsUpper(r[i]))
      && (forall i :: 0 <= i < |r| ==>
            (t[i] == ' ' ==> r[i] == '_') && (IsUpper(t[i]) ==> r[i] == Lower(t[i])) &&
            (t[i] != ' ' && !IsUpper(t[i]) ==> r[i] == t[i]))
  {
  }

  /** Namifying a column name again changes nothing. */
  lemma NamifyIdempotent(heading: string)
    ensures Namify(Namify(heading)) == Namify(heading)
  {
    var r := Namify(heading);
    NamifyShape(heading);
    StripTrimmed(r);
    assert forall i :: 0 <= i < |r| ==> NamifyChar(r[i]) == r[i];
  }

  const SubjectPath: string := "/ybio/?wcodes="
  const SubjectQuery: string := "&wcodes_op=contains"

  /** `subject_url` (scrape_yio.py:38-41): the listing URL of a subject,
      under the site's base URL (`config.BASE_URL`, a parameter here). The
      `page` argument is accepted and not used. */
  function SubjectUrl(baseUrl: string, subject: string, page: Option<nat>): (u: string)
    ensures |u| == |baseUrl| + |SubjectPath| + |subject| + |SubjectQuery|
    ensures u[..|baseUrl| + |SubjectPath|] == baseUrl + SubjectPath
    ensures u[|u| - |SubjectQuery|..] == SubjectQuery
  {
    var u := baseUrl + SubjectPath + subject + SubjectQuery;
    assert u == (baseUrl + SubjectPath) + (subject + SubjectQuery);
    u
  }

  /** Reads the subject back out of a listing URL under `baseUrl`. */
  function SubjectOfUrl(baseUrl: string, url: string): Option<string>
  {
    var head := baseUrl + SubjectPath;
    if |url| >= |head| + |SubjectQuery| && url[..|head|] == head
       && url[|url| - |SubjectQuery|..] == SubjectQuery
    then Some(url[|head|..|url| - |SubjectQuery|])
    else None
  }

  /** The subject is recovered from its listing URL, whatever `page` is. */
  lemma SubjectUrlRoundTrip(baseUrl: string, subject: string, page: Option<nat>)
    ensures SubjectOfUrl(baseUrl, SubjectUrl(baseUrl, subject, page)) == Some(subject)
  {
    var head := baseUrl + SubjectPath;
    var url := SubjectUrl(baseUrl, subject, page);
    assert url == head + subject + SubjectQuery;
    assert url[..|head|] == head;
    assert url[|url| - |SubjectQuery|..] == SubjectQuery;
    assert url[|head|..|url| - |SubjectQuery|] == subject;
  }

  /** Different subjects give different URLs, and `page` has no effect. */
  lemma SubjectUrlInjective(baseUrl: string, s1: string, p1: Option<nat>, s2: string, p2: Option<nat>)
    ensures SubjectUrl(baseUrl, s1, p1) == SubjectUrl(baseUrl, s2, p2) <==> s1 == s2
  {
    SubjectUrlRoundTrip(baseUrl, s1, p1);
    SubjectUrlRoundTrip(baseUrl, s2, p2);
  }

  predicate AllDigits(s: string)
  {
    forall i :: 0 <= i < |s| ==> IsDigit(s[i])
  }

  /** The part of a URL before which the regular expression's `$` may
      match: the whole string, or the string without one final line feed. */
  function MatchEnd(url: string): string
  {
    if |url| > 0 && url[|url| - 1] == '\n' then url[..|url| - 1] else url
  }

  /** The number of digits that end `s`. */
  function TrailingDigits(s: string): (n: nat)
    ensures n <= |s|
    ensures AllDigits(s[|s| - n..])
    ensures n < |s| ==> !IsDigit(s[|s| - n - 1])
  {
    if s != [] && IsDigit(s[|s| - 1]) then
      var t := s[..|s| - 1];
      var n := TrailingDigits(t);
      var u, v := s[|s| - (n + 1)..], t[|t| - n..];
      assert AllDigits(u) by {
        forall i | 0 <= i < |u|
          ensures IsDigit(u[i])
        {
          if i < n {
            assert u[i] == v[i];
          }
        }
      }
      n + 1
    else 0
  }

  /** `/d` is a suffix of `b` with `d` a non-empty run of digits. */
  predicate SlashDigitsAt(b: string, j: int)
  {
    0 <= j < |b| - 1 && b[j] == '/' && AllDigits(b[j + 1..])
  }

  /** `re.search(r"/(\d+)$", url).group(1)` (scrape_yio.py:138-139): the
      non-empty run of digits that ends the URL (or ends it before a final
      line feed) and is immediately preceded by `'/'`. `None` stands for the
      failed match, on which the source's `.group` raises. */
  function UrlId(url: string): (r: Option<string>)
    ensures r.Some? ==> exists j :: SlashDigitsAt(MatchEnd(url), j) && r.value == MatchEnd(url)[j + 1..]
    ensures r.None? <==> forall j :: !SlashDigitsAt(MatchEnd(url), j)
  {
    var b := MatchEnd(url);
    var n := TrailingDigits(b);
    if 0 < n < |b| && b[|b| - n - 1] == '/' then
      assert SlashDigitsAt(b, |b| - n - 1);
      Some(b[|b| - n..])
    else
      assert forall j :: !SlashDigitsAt(b, j) by {
        forall j | SlashDigitsAt(b, j) ensures false {
        }
      }
      None
  }
}
