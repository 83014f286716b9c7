/**
 * The e-mail test of registration: the JavaScript regular expression
 * `^[\w-\.]+@([\w-]+\.)+[\w-]{2,4}$` (no flags), written out by hand.
 *
 * Without the `u` flag, `\w` is `[A-Za-z0-9_]` and the class `[\w-\.]` is the
 * union of `\w`, `-` and `.` (a class escape cannot start a range). Without
 * the `m` flag, `^` and `$` anchor at the ends of the whole input.
 *
 * `MatchesPattern` states the language the way the expression is built, by
 * splitting the input; `IsValidEmail` is the scanner the registration uses;
 * `ValidEmailIffPattern` proves that they agree on every string.
 */
module EmailPattern {

  /** `\w` */
  predicate IsWordChar(c: char) {
    ('A' <= c <= 'Z') || ('a' <= c <= 'z') || ('0' <= c <= '9') || c == '_'
  }

  /** `[\w-]`: the characters of a domain label and of the final label */
  predicate IsLabelChar(c: char) {
    IsWordChar(c) || c == '-'
  }

  /** `[\w-\.]`: the characters of the local part */
  predicate IsLocalChar(c: char) {
    IsLabelChar(c) || c == '.'
  }

  predicate AllLabelChars(s: string) {
    forall i :: 0 <= i < |s| ==> IsLabelChar(s[i])
  }

  predicate AllLocalChars(s: string) {
    forall i :: 0 <= i < |s| ==> IsLocalChar(s[i])
  }

  // ---------------------------------------------------------------------------
  // The language, following the structure of the expression

  /** `[\w-\.]+` */
  ghost predicate LocalPart(s: string) {
    |s| >= 1 && AllLocalChars(s)
  }

  /** `[\w-]+\.` */
  ghost predicate Segment(s: string) {
    |s| >= 2 && s[|s| - 1] == '.' && AllLabelChars(s[..|s| - 1])
  }

  /** `([\w-]+\.)+`: one segment, then either nothing or more segments */
  ghost predicate Segments(s: string)
    decreases |s|, 1
  {
    exists j :: SegmentsSplit(s, j)
  }

  /** `s` is one segment of length `j`, then either nothing or more segments. */
  ghost predicate SegmentsSplit(s: string, j: int)
    decreases |s|, 0
  {
    2 <= j <= |s| && Segment(s[..j]) && (j == |s| || Segments(s[j..]))
  }

  /** `[\w-]{2,4}` */
  ghost predicate TopLabel(s: string) {
    2 <= |s| <= 4 && AllLabelChars(s)
  }

  /** `([\w-]+\.)+[\w-]{2,4}` */
  ghost predicate DomainPart(s: string) {
    exists k :: DomainSplit(s, k)
  }

  /** `s` is a run of segments of length `k`, then a final label. */
  ghost predicate DomainSplit(s: string, k: int) {
    0 <= k <= |s| && Segments(s[..k]) && TopLabel(s[k..])
  }

  /** `^[\w-\.]+@([\w-]+\.)+[\w-]{2,4}$` */
  ghost predicate MatchesPattern(s: string) {
    exists i :: 0 <= i < |s| && s[i] == '@' && LocalPart(s[..i]) && DomainPart(s[i + 1..])
  }

  // ---------------------------------------------------------------------------
  // The scanner

  /** Length of the longest prefix made of `[\w-]` characters. */
  function LabelSpan(s: string): (n: nat)
    ensures n <= |s| && AllLabelChars(s[..n])
    ensures n < |s| ==> !IsLabelChar(s[n])
  {
    if s == [] || !IsLabelChar(s[0]) then 0
    else
      var m := LabelSpan(s[1..]);
      assert s[..m + 1] == [s[0]] + s[1..][..m];
      m + 1
  }

  /** Length of the longest prefix made of `[\w-\.]` characters. */
  function LocalSpan(s: string): (n: nat)
    ensures n <= |s| && AllLocalChars(s[..n])
    ensures n < |s| ==> !IsLocalChar(s[n])
  {
    if s == [] || !IsLocalChar(s[0]) then 0
    else
      var m := LocalSpan(s[1..]);
      assert s[..m + 1] == [s[0]] + s[1..][..m];
      m + 1
  }

  /** What may follow a first `label.`: further `label.` segments, then a final label of 2 to 4 characters. */
  function IsDomainTail(s: string): bool
    decreases |s|
  {
    var n := LabelSpan(s);
    if n == |s| then 2 <= n <= 4
    else 1 <= n && s[n] == '.' && IsDomainTail(s[n + 1..])
  }

  /** A non-empty label, a dot, and a domain tail. */
  function IsDomain(s: string): bool {
    var n := LabelSpan(s);
    1 <= n < |s| && s[n] == '.' && IsDomainTail(s[n + 1..])
  }

  /** `email.match(/^[\w-\.]+@([\w-]+\.)+[\w-]{2,4}$/)` is not null. */
  function IsValidEmail(s: string): bool {
    var n := LocalSpan(s);
    1 <= n < |s| && s[n] == '@' && IsDomain(s[n + 1..])
  }

  // ---------------------------------------------------------------------------
  // The scanner recognises exactly the language of the expression

  /** A label followed by a character outside `[\w-]` is the longest label prefix. */
  lemma LabelSpanIs(s: string, n: nat)
    requires n < |s| && AllLabelChars(s[..n]) && !IsLabelChar(s[n])
    ensures LabelSpan(s) == n
  {
  }

  lemma LocalSpanIs(s: string, n: nat)
    requires n < |s| && AllLocalChars(s[..n]) && !IsLocalChar(s[n])
    ensures LocalSpan(s) == n
  {
  }

  /** A final label alone is a domain tail. */
  lemma TopLabelIsTail(t: string)
    requires TopLabel(t)
    ensures IsDomainTail(t)
  {
    assert t[..|t|] == t;
  }

  /** A segment in front of a final label, or in front of a domain, makes a domain. */
  lemma PrependSegment(d: string, n: nat)
    requires n + 1 <= |d| && Segment(d[..n + 1])
    requires TopLabel(d[n + 1..]) || DomainPart(d[n + 1..])
    ensures DomainPart(d)
  {
    var head := d[..n + 1];
    var rest := d[n + 1..];
    assert head[..n + 1] == head;
    if TopLabel(rest) {
      assert SegmentsSplit(d[..n + 1], n + 1);
      assert DomainSplit(d, n + 1);
    } else {
      var k' :| DomainSplit(rest, k');
      var k := n + 1 + k';
      var x := d[..k];
      assert x[..n + 1] == head;
      assert x[n + 1..] == rest[..k'];
      assert SegmentsSplit(x, n + 1);
      assert d[k..] == rest[k'..];
      assert DomainSplit(d, k);
    }
  }

  /** Whatever the scanner accepts as a domain matches `([\w-]+\.)+[\w-]{2,4}`. */
  lemma {:induction false} DomainSound(d: string)
    decreases |d|
    requires IsDomain(d)
    ensures DomainPart(d)
  {
    var n := LabelSpan(d);
    var rest := d[n + 1..];
    assert Segment(d[..n + 1]) by {
      assert d[..n + 1][..n] == d[..n];
    }
    var m := LabelSpan(rest);
    if m == |rest| {
      assert rest[..m] == rest;
    } else {
      DomainSound(rest);
    }
    PrependSegment(d, n);
  }

  /** Whatever matches `([\w-]+\.)+[\w-]{2,4}` the scanner accepts as a domain. */
  lemma {:induction false} DomainComplete(d: string)
    decreases |d|
    requires DomainPart(d)
    ensures IsDomain(d)
  {
    var k :| DomainSplit(d, k);
    var x := d[..k];
    assert Segments(x);
    var j :| SegmentsSplit(x, j);
    assert x[..j] == d[..j];
    assert d[..j][..j - 1] == d[..j - 1];
    LabelSpanIs(d, j - 1);
    var rest := d[j..];
    if j == |x| {
      assert rest == d[k..];
      TopLabelIsTail(rest);
    } else {
      assert x[j..] == rest[..k - j];
      assert rest[k - j..] == d[k..];
      assert DomainSplit(rest, k - j);
      DomainComplete(rest);
      DomainIsTail(rest);
    }
    assert d[j - 1] == '.' by {
      assert d[..j][j - 1] == d[j - 1];
    }
  }

  /** A domain is also a domain tail: its first segment is one of the tail's segments. */
  lemma DomainIsTail(d: string)
    requires IsDomain(d)
    ensures IsDomainTail(d)
  {
  }

  /** The scanner accepts a string exactly when the regular expression matches it. */
  lemma ValidEmailIffPattern(s: string)
    ensures IsValidEmail(s) <==> MatchesPattern(s)
  {
    var n := LocalSpan(s);
    if IsValidEmail(s) {
      DomainSound(s[n + 1..]);
    }
    if MatchesPattern(s) {
      var i :| 0 <= i < |s| && s[i] == '@' && LocalPart(s[..i]) && DomainPart(s[i + 1..]);
      LocalSpanIs(s, i);
      DomainComplete(s[i + 1..]);
    }
  }

  // ---------------------------------------------------------------------------
  // What an accepted address looks like

  /** `k` is the dot before a final label of 2 to 4 `[\w-]` characters. */
  ghost predicate FinalLabelAt(s: string, k: int) {
    0 <= k < |s| && s[k] == '.' && TopLabel(s[k + 1..])
  }

  lemma {:induction false} DomainTailShape(t: string)
    decreases |t|
    requires IsDomainTail(t)
    ensures AllLocalChars(t)
    ensures TopLabel(t) || exists k :: FinalLabelAt(t, k)
  {
    var n := LabelSpan(t);
    if n == |t| {
      assert t[..n] == t;
    } else {
      var rest := t[n + 1..];
      DomainTailShape(rest);
      assert t == t[..n] + [t[n]] + rest;
      LocalCharsJoin(t[..n], t[n], rest);
      if TopLabel(rest) {
        assert FinalLabelAt(t, n);
      } else {
        var k' :| FinalLabelAt(rest, k');
        FinalLabelShift(t, n + 1, k');
      }
    }
  }

  /** Label characters, one more local character, then local characters. */
  lemma LocalCharsJoin(a: string, c: char, b: string)
    requires AllLabelChars(a) && IsLocalChar(c) && AllLocalChars(b)
    ensures AllLocalChars(a + [c] + b)
  {
  }

  /** A final label found in a suffix of `s` is a final label of `s`. */
  lemma FinalLabelShift(s: string, m: nat, k: int)
    requires m <= |s| && FinalLabelAt(s[m..], k)
    ensures FinalLabelAt(s, m + k)
  {
    assert s[m..][k + 1..] == s[m + k + 1..];
  }

  lemma DomainShape(d: string)
    requires IsDomain(d)
    ensures AllLocalChars(d)
    ensures exists k :: FinalLabelAt(d, k)
    ensures d[LabelSpan(d)] == '.'
  {
    DomainTailShape(d);
  }

  /**
   * An accepted address has exactly one `@`, a dot somewhere after it, and
   * ends in a dot followed by 2 to 4 characters of `[\w-]`; it is made of
   * `[\w-\.]` characters and that one `@`.
   */
  lemma AcceptedEmailShape(s: string)
    requires IsValidEmail(s)
    ensures multiset(s)['@'] == 1
    ensures exists i, k :: 0 <= i < k < |s| && s[i] == '@' && s[k] == '.'
    ensures exists k :: FinalLabelAt(s, k)
    ensures forall i :: 0 <= i < |s| ==> IsLocalChar(s[i]) || s[i] == '@'
  {
    var n := LocalSpan(s);
    var d := s[n + 1..];
    DomainShape(d);
    assert s == s[..n] + [s[n]] + d;
    SingleAt(s[..n], d);
    var m := LabelSpan(d);
    assert s[n + 1 + m] == '.';
    var k' :| FinalLabelAt(d, k');
    FinalLabelShift(s, n + 1, k');
    AtJoin(s[..n], d);
  }

  /** Two strings without `@`, joined by one `@`, hold exactly one `@`. */
  lemma SingleAt(a: string, b: string)
    requires AllLocalChars(a) && AllLocalChars(b)
    ensures multiset(a + ['@'] + b)['@'] == 1
  {
    assert '@' !in a;
    assert '@' !in b;
    assert multiset(a + ['@'] + b) == multiset(a) + multiset{'@'} + multiset(b);
  }

  /** Local characters, `@`, local characters: every character is local or `@`. */
  lemma AtJoin(a: string, b: string)
    requires AllLocalChars(a) && AllLocalChars(b)
    ensures forall i :: 0 <= i < |a + ['@'] + b| ==> IsLocalChar((a + ['@'] + b)[i]) || (a + ['@'] + b)[i] == '@'
  {
  }

  // ---------------------------------------------------------------------------
  // Sample addresses

  /** The address of the sample registration matches. */
  lemma ExampleAddressMatches(s: string)
    requires s == "alice@example.com"
    ensures IsValidEmail(s)
  {
    var local := s[..5];
    assert s == local + "@example.com";
    LowerAlnumLocal(local);
    SampleAddressMatches(local);
  }

  lemma SecondAddressMatches(s: string)
    requires s == "alice2@example.com"
    ensures IsValidEmail(s)
  {
    var local := s[..6];
    assert s == local + "@example.com";
    LowerAlnumLocal(local);
    SampleAddressMatches(local);
  }

  lemma LowerAlnumLocal(local: string)
    requires local != []
    requires forall i :: 0 <= i < |local| ==> 'a' <= local[i] <= 'z' || '0' <= local[i] <= '9'
    ensures LocalPart(local)
  {
  }

  /** Any local part of `[\w-\.]` characters at "example.com" matches. */
  lemma SampleAddressMatches(local: string)
    requires LocalPart(local)
    ensures IsValidEmail(local + "@example.com")
  {
    var s := local + "@example.com";
    var n := |local|;
    var d := s[n + 1..];
    assert d == "example.com";
    assert d[..7] == "example";
    assert AllLabelChars("example") by {
      forall i | 0 <= i < 7 ensures IsLabelChar("example"[i]) {
        assert 'a' <= "example"[i] <= 'z';
      }
    }
    assert SegmentsSplit(d[..8], 8) by {
      assert d[..8][..8] == d[..8];
      assert d[..8][..7] == "example";
    }
    assert d[8..] == "com";
    assert TopLabel("com") by {
      forall i | 0 <= i < 3 ensures IsLabelChar("com"[i]) {
        assert 'a' <= "com"[i] <= 'z';
      }
    }
    assert DomainSplit(d, 8);
    assert s[..n] == local;
    assert MatchesPattern(s);
    ValidEmailIffPattern(s);
  }
}
