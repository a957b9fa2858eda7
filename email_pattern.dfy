/** The email shape test of validate_email.py: `re.match` of the pattern
    `^[\w\-\.]+@([\w\-]+\.)+[\w\-]{2,4}$`, hand-coded as recursive predicates.

    - `\w` is approximated by the ASCII word characters (letters, digits, `_`).
    - `re.match` anchors at the start; `$` (without MULTILINE) matches at the
      end of the string or just before a newline that ends the string, and
      `Matches` models both. */
module EmailPattern {

  predicate IsWordChar(c: char) {
    'a' <= c <= 'z' || 'A' <= c <= 'Z' || '0' <= c <= '9' || c == '_'
  }

  /** `[\w\-\.]` */
  predicate IsLocalChar(c: char) {
    IsWordChar(c) || c == '-' || c == '.'
  }

  /** `[\w\-]` */
  predicate IsLabelChar(c: char) {
    IsWordChar(c) || c == '-'
  }

  /** The length of the longest prefix of `s` drawn from the character class `inClass`:
      how far a greedy `[...]+` or `[...]*` run reaches. */
  function Span(s: string, inClass: char -> bool): (n: nat)
    ensures n <= |s|
    ensures forall i :: 0 <= i < n ==> inClass(s[i])
    ensures n == |s| || !inClass(s[n])
  {
    if s == [] || !inClass(s[0]) then 0 else 1 + Span(s[1..], inClass)
  }

  /** `[\w\-\.]+` matching all of `s` */
  predicate IsLocalPart(s: string) {
    |s| > 0 && forall i :: 0 <= i < |s| ==> IsLocalChar(s[i])
  }

  /** `[\w\-]+` matching all of `s` */
  predicate IsLabel(s: string) {
    |s| > 0 && forall i :: 0 <= i < |s| ==> IsLabelChar(s[i])
  }

  /** `[\w\-]{2,4}` matching all of `s` */
  predicate IsFinalLabel(s: string) {
    2 <= |s| <= 4 && forall i :: 0 <= i < |s| ==> IsLabelChar(s[i])
  }

  /** `([\w\-]+\.)+[\w\-]{2,4}` matching all of `s`. A label cannot contain `.`,
      so each group's `[\w\-]+` reaches exactly to the next `.`; after one
      group the rest is either the final label or another group and more. */
  predicate MatchesDomain(s: string)
    decreases |s|
  {
    var k := Span(s, IsLabelChar);
    0 < k < |s| && s[k] == '.' && (IsFinalLabel(s[k + 1..]) || MatchesDomain(s[k + 1..]))
  }

  /** `[\w\-\.]+@([\w\-]+\.)+[\w\-]{2,4}` matching all of `s`. The local part
      cannot contain `@`, so it reaches exactly to the first `@`. */
  predicate MatchesWhole(s: string) {
    var k := Span(s, IsLocalChar);
    0 < k < |s| && s[k] == '@' && MatchesDomain(s[k + 1..])
  }

  /** `re.match(REGULAR_EXPRESSION, s)` succeeds */
  predicate Matches(s: string) {
    MatchesWhole(s) || (|s| > 0 && s[|s| - 1] == '\n' && MatchesWhole(s[..|s| - 1]))
  }

  // ---------------------------------------------------------------------
  // A declarative reading of the domain: split at every `.`; there are at
  // least two pieces, every piece but the last is a label and the last is a
  // final label.

  /** The index of the first occurrence of `c` in `s` */
  function IndexOf(s: string, c: char): (k: nat)
    requires c in s
    ensures k < |s| && s[k] == c
    ensures forall i :: 0 <= i < k ==> s[i] != c
  {
    if s[0] == c then 0 else 1 + IndexOf(s[1..], c)
  }

  /** The first occurrence is the one with no earlier occurrence. */
  lemma IndexOfIs(s: string, c: char, k: nat)
    requires k < |s| && s[k] == c
    requires forall i :: 0 <= i < k ==> s[i] != c
    ensures IndexOf(s, c) == k
  {
  }

  /** Python's `s.split(sep)` for a one-character separator */
  function SplitOn(s: string, sep: char): (parts: seq<string>)
    ensures |parts| >= 1
    ensures sep !in s ==> parts == [s]
    ensures sep in s ==> |parts| >= 2
    decreases |s|
  {
    if sep !in s then [s]
    else
      var k := IndexOf(s, sep);
      [s[..k]] + SplitOn(s[k + 1..], sep)
  }

  /** Dot-separated pieces of a domain: at least two, every piece but the
      last a label, the last a final label */
  predicate LabelsShape(parts: seq<string>) {
    && |parts| >= 2
    && (forall i :: 0 <= i < |parts| - 1 ==> IsLabel(parts[i]))
    && IsFinalLabel(parts[|parts| - 1])
  }

  /** The domain read as dot-separated labels */
  predicate DomainShape(d: string) {
    LabelsShape(SplitOn(d, '.'))
  }

  /** A greedy run stops exactly at the first character outside its class. */
  lemma SpanStopsAt(s: string, inClass: char -> bool, k: nat)
    requires k <= |s|
    requires forall i :: 0 <= i < k ==> inClass(s[i])
    requires k == |s| || !inClass(s[k])
    ensures Span(s, inClass) == k
  {
  }

  /** One step of the matcher: the first label runs exactly to the first `.`. */
  lemma MatchesDomainStep(d: string)
    requires '.' in d
    ensures var j := IndexOf(d, '.');
            MatchesDomain(d) <==> IsLabel(d[..j]) && (IsFinalLabel(d[j + 1..]) || MatchesDomain(d[j + 1..]))
  {
    var j := IndexOf(d, '.');
    var k := Span(d, IsLabelChar);
    assert !IsLabelChar(d[j]);
    assert k == j && j > 0 ==> IsLabel(d[..j]);
    if IsLabel(d[..j]) {
      SpanStopsAt(d, IsLabelChar, j);
    } else {
      assert !MatchesDomain(d) by {
        if k < j {
          assert d[k] != '.';
        }
      }
    }
  }

  /** Peeling the first piece off a list of pieces. */
  lemma LabelsShapeCons(first: string, tail: seq<string>)
    requires |tail| >= 1
    ensures LabelsShape([first] + tail) <==>
              IsLabel(first) && ((|tail| == 1 && IsFinalLabel(tail[0])) || LabelsShape(tail))
  {
    var parts := [first] + tail;
    assert parts[0] == first;
    assert parts[|parts| - 1] == tail[|tail| - 1];
    assert forall i :: 0 <= i < |tail| ==> parts[i + 1] == tail[i];
  }

  /** One step of the declarative reading: the first piece is the first label. */
  lemma DomainShapeStep(d: string)
    requires '.' in d
    ensures var j := IndexOf(d, '.');
            DomainShape(d) <==> IsLabel(d[..j]) && (IsFinalLabel(d[j + 1..]) || DomainShape(d[j + 1..]))
  {
    var j := IndexOf(d, '.');
    var rest := d[j + 1..];
    var tail := SplitOn(rest, '.');
    assert SplitOn(d, '.') == [d[..j]] + tail;
    LabelsShapeCons(d[..j], tail);
    if |tail| == 1 {
      assert tail == [rest];
    } else {
      assert '.' in rest;
      assert !IsFinalLabel(rest) by {
        var m := IndexOf(rest, '.');
        assert !IsLabelChar(rest[m]);
      }
    }
  }

  /** The matcher and the declarative reading of the domain agree. */
  lemma {:induction false} MatchesDomainIff(d: string)
    ensures MatchesDomain(d) <==> DomainShape(d)
    decreases |d|
  {
    if '.' in d {
      var j := IndexOf(d, '.');
      MatchesDomainStep(d);
      DomainShapeStep(d);
      MatchesDomainIff(d[j + 1..]);
    } else {
      assert SplitOn(d, '.') == [d];
      var k := Span(d, IsLabelChar);
      assert !(k < |d| && d[k] == '.');
    }
  }

  /** Every character of a matched domain is a label character or `.`, and it
      holds at least one `.`. */
  lemma {:induction false} DomainCharacters(d: string)
    requires MatchesDomain(d)
    ensures forall i :: 0 <= i < |d| ==> IsLabelChar(d[i]) || d[i] == '.'
    ensures '.' in d
    decreases |d|
  {
    var k := Span(d, IsLabelChar);
    var rest := d[k + 1..];
    if MatchesDomain(rest) {
      DomainCharacters(rest);
    }
    forall i | 0 <= i < |d|
      ensures IsLabelChar(d[i]) || d[i] == '.'
    {
      if i > k {
        assert d[i] == rest[i - k - 1];
      }
    }
    assert d[k] == '.';
  }

  /** What any string the whole pattern accepts looks like: exactly one `@`,
      a non-empty local part over `[\w\-\.]` before it, and after it a domain
      holding a `.` whose dot-separated pieces are labels ending in a 2 to 4
      character final label. */
  lemma AcceptedShape(s: string)
    requires MatchesWhole(s)
    ensures '@' in s
    ensures forall i :: 0 <= i < |s| && s[i] == '@' ==> i == IndexOf(s, '@')
    ensures IsLocalPart(s[..IndexOf(s, '@')])
    ensures '.' in s[IndexOf(s, '@') + 1..]
    ensures DomainShape(s[IndexOf(s, '@') + 1..])
  {
    var k := Span(s, IsLocalChar);
    var d := s[k + 1..];
    DomainCharacters(d);
    MatchesDomainIff(d);
    forall i | k < i < |s|
      ensures s[i] != '@'
    {
      assert s[i] == d[i - k - 1];
    }
    IndexOfIs(s, '@', k);
  }

  /** A string ending in a newline is accepted exactly when the string
      without that newline matches the whole pattern. */
  lemma TrailingNewline(s: string)
    requires |s| > 0 && s[|s| - 1] == '\n'
    ensures Matches(s) <==> MatchesWhole(s[..|s| - 1])
  {
    if MatchesWhole(s) {
      var k := Span(s, IsLocalChar);
      var d := s[k + 1..];
      assert d[|d| - 1] == '\n';
      DomainCharacters(d);
    }
  }

  /** A string without `@` is rejected. */
  lemma NoAtRejected(s: string)
    requires '@' !in s
    ensures !Matches(s)
  {
    if |s| > 0 && s[|s| - 1] == '\n' {
      assert '@' !in s[..|s| - 1];
    }
  }

  /** In any string the whole pattern accepts, some `.` follows an `@`. */
  lemma DotAfterAt(s: string)
    requires MatchesWhole(s)
    ensures exists i, j :: 0 <= i < j < |s| && s[i] == '@' && s[j] == '.'
  {
    var k := Span(s, IsLocalChar);
    var d := s[k + 1..];
    DomainCharacters(d);
    var m := IndexOf(d, '.');
    assert s[k + 1 + m] == '.';
  }

  /** A string with no `.` after any `@` is rejected. */
  lemma NoDotAfterAtRejected(s: string)
    requires forall i, j :: 0 <= i < j < |s| && s[i] == '@' ==> s[j] != '.'
    ensures !Matches(s)
  {
    if MatchesWhole(s) {
      DotAfterAt(s);
    } else if |s| > 0 && s[|s| - 1] == '\n' && MatchesWhole(s[..|s| - 1]) {
      DotAfterAt(s[..|s| - 1]);
    }
  }

  /** `local@label.tld` is accepted whenever its three parts have the
      pattern's shapes. */
  lemma BuildAccepted(local: string, host: string, tld: string)
    requires IsLocalPart(local) && IsLabel(host) && IsFinalLabel(tld)
    ensures Matches(local + "@" + host + "." + tld)
  {
    var d := host + "." + tld;
    SpanStopsAt(d, IsLabelChar, |host|);
    assert d[|host| + 1..] == tld;
    var s := local + "@" + d;
    assert s == local + "@" + host + "." + tld;
    SpanStopsAt(s, IsLocalChar, |local|);
    assert s[|local| + 1..] == d;
  }

  /** Conversely to `AcceptedShape`: a well-shaped local part, `@`, and a
      domain of dot-separated labels ending in a final label is accepted. */
  lemma ShapeAccepted(local: string, d: string)
    requires IsLocalPart(local) && DomainShape(d)
    ensures MatchesWhole(local + "@" + d)
  {
    MatchesDomainIff(d);
    var s := local + "@" + d;
    SpanStopsAt(s, IsLocalChar, |local|);
    assert s[|local| + 1..] == d;
  }
}
