/**
 * The e-mail string of 1_concepts/1_5_convert_cast_deref/src/email_string.rs:
 * a string checked to look like an address (a part before the first `@`,
 * and after it a domain with a `.` that is not its first character), and
 * the conversions that all hand back the string as given.
 */
module EmailStrings {
  import opened Wrappers

  datatype EmailString = EmailString(inner: string)

  /** `str::split("@")`: the pieces between the `@`s, at least one and possibly empty. */
  function Split(s: string): (pieces: seq<string>)
    ensures |pieces| >= 1
  {
    if s == [] then [[]]
    else if s[0] == '@' then [[]] + Split(s[1..])
    else
      var rest := Split(s[1..]);
      [[s[0]] + rest[0]] + rest[1..]
  }

  /** No `@` in `s[lo..hi]`. */
  predicate NoAt(s: string, lo: int, hi: int) {
    forall m :: lo <= m < hi && 0 <= m < |s| ==> s[m] != '@'
  }

  /** The index of the first `@`, or the length when there is none. */
  function FirstAt(s: string): (k: nat)
    ensures k <= |s| && NoAt(s, 0, k) && (k < |s| ==> s[k] == '@')
  {
    if s == [] then 0
    else if s[0] == '@' then 0
    else
      var k := 1 + FirstAt(s[1..]);
      assert forall m :: 1 <= m < k ==> s[m] == s[1..][m - 1];
      k
  }

  /** The first piece of a split runs to the first `@`; there is a second piece exactly when there is an `@`, and the others are the split of what follows it. */
  lemma {:induction false} SplitHead(s: string)
    ensures Split(s)[0] == s[..FirstAt(s)]
    ensures |Split(s)| >= 2 <==> FirstAt(s) < |s|
    ensures FirstAt(s) < |s| ==> Split(s)[1..] == Split(s[FirstAt(s) + 1..])
  {
    if s != [] && s[0] != '@' {
      var t := s[1..];
      SplitHead(t);
      var rest := Split(t);
      var k := FirstAt(t);
      assert Split(s) == [[s[0]] + rest[0]] + rest[1..];
      assert FirstAt(s) == k + 1;
      assert s[..k + 1] == [s[0]] + t[..k];
      if k < |t| {
        assert t[k + 1..] == s[k + 2..];
      }
    }
  }

  /** The byte search `rposition` for a `.`: the index of the last one. */
  function RPositionDot(d: string): (r: Option<nat>)
    ensures r.Some? ==> r.value < |d| && d[r.value] == '.' && (forall j :: r.value < j < |d| ==> d[j] != '.')
    ensures r.None? ==> forall j :: 0 <= j < |d| ==> d[j] != '.'
  {
    if d == [] then None
    else if d[|d| - 1] == '.' then Some(|d| - 1)
    else RPositionDot(d[..|d| - 1])
  }

  /**
   * EmailString::new: take the piece after the first `@` as the domain,
   * split it at its last `.`, and refuse when there is no `@`, no `.`, or
   * nothing before that `.`. The string kept is the input.
   */
  function New(s: string): (r: Result<EmailString, Unit>)
    ensures r.Ok? ==> r.value.inner == s
  {
    var parts := Split(s);
    if |parts| < 2 then Err(Unit)
    else
      var domain := parts[1];
      match RPositionDot(domain)
      case None => Err(Unit)
      case Some(position) =>
        var domainRest, tld := domain[..position], domain[position..];
        if |domainRest| == 0 || |tld| == 0 then Err(Unit)
        else Ok(EmailString(s))
  }

  /**
   * What `new` accepts, said without splitting: an `@` with none before it,
   * and after it a `.`, not right after the `@` and with no `@` in between.
   */
  predicate LooksLikeEmail(s: string) {
    exists i, j :: 0 <= i && i + 1 < j < |s| && s[i] == '@' && s[j] == '.' && NoAt(s, 0, i) && NoAt(s, i + 1, j)
  }

  /** What follows the first `@`, up to the next `@` or the end. */
  function Domain(s: string): string
    requires FirstAt(s) < |s|
  {
    var rest := s[FirstAt(s) + 1..];
    rest[..FirstAt(rest)]
  }

  /** `d` has a `.` after its first character. */
  predicate HasInnerDot(d: string) {
    exists p :: 0 < p < |d| && d[p] == '.'
  }

  /** The last `.` is not the first character exactly when some `.` is not. */
  lemma LastDotInner(d: string)
    ensures (RPositionDot(d).Some? && RPositionDot(d).value > 0) <==> HasInnerDot(d)
  {
    if HasInnerDot(d) {
      var p :| 0 < p < |d| && d[p] == '.';
      assert RPositionDot(d).Some? && RPositionDot(d).value >= p;
    }
  }

  /** `new` accepts a string with an `@` whose domain has an inner `.`. */
  lemma NewDomain(s: string)
    ensures New(s).Ok? <==> FirstAt(s) < |s| && HasInnerDot(Domain(s))
  {
    SplitHead(s);
    if FirstAt(s) < |s| {
      var rest := s[FirstAt(s) + 1..];
      SplitHead(rest);
      assert Split(s)[1] == Domain(s);
      LastDotInner(Domain(s));
    }
  }

  /** An `@` with none before it is the first one. */
  lemma FirstAtUnique(s: string, i: int)
    requires 0 <= i < |s| && s[i] == '@' && NoAt(s, 0, i)
    ensures FirstAt(s) == i
  {
  }

  /** With no `@` up to and including position `q`, the first `@` comes after it. */
  lemma FirstAtAfter(t: string, q: int)
    requires 0 <= q < |t| && NoAt(t, 0, q + 1)
    ensures FirstAt(t) > q
  {
  }

  /** The positions `i` and `j` of the index form place a `.` inside the domain. */
  lemma LooksLikeGivesDomain(s: string, i: int, j: int)
    requires 0 <= i && i + 1 < j < |s| && s[i] == '@' && s[j] == '.' && NoAt(s, 0, i) && NoAt(s, i + 1, j)
    ensures FirstAt(s) < |s| && HasInnerDot(Domain(s))
  {
    FirstAtUnique(s, i);
    var rest := s[i + 1..];
    var q := j - i - 1;
    assert rest[q] == s[j];
    assert NoAt(rest, 0, q + 1) by {
      forall m | 0 <= m < q + 1
        ensures rest[m] != '@'
      {
        assert rest[m] == s[m + i + 1];
      }
    }
    FirstAtAfter(rest, q);
    var d := rest[..FirstAt(rest)];
    assert d == Domain(s);
    assert d[q] == '.';
  }

  /** A `.` inside the domain gives the positions of the index form. */
  lemma DomainGivesLooksLike(s: string)
    requires FirstAt(s) < |s| && HasInnerDot(Domain(s))
    ensures LooksLikeEmail(s)
  {
    var k := FirstAt(s);
    var rest := s[k + 1..];
    var k2 := FirstAt(rest);
    var d := rest[..k2];
    assert d == Domain(s);
    var p :| 0 < p < |d| && d[p] == '.';
    var j := k + 1 + p;
    assert s[j] == rest[p] == d[p];
    assert NoAt(s, k + 1, j) by {
      forall m | k + 1 <= m < j
        ensures s[m] != '@'
      {
        assert s[m] == rest[m - k - 1];
      }
    }
    assert 0 <= k && k + 1 < j < |s| && s[k] == '@' && s[j] == '.' && NoAt(s, 0, k);
  }

  /** The domain form and the index form of the check agree. */
  lemma LooksLikeDomain(s: string)
    ensures LooksLikeEmail(s) <==> FirstAt(s) < |s| && HasInnerDot(Domain(s))
  {
    if LooksLikeEmail(s) {
      var i, j :| 0 <= i && i + 1 < j < |s| && s[i] == '@' && s[j] == '.' && NoAt(s, 0, i) && NoAt(s, i + 1, j);
      LooksLikeGivesDomain(s, i, j);
    }
    if FirstAt(s) < |s| && HasInnerDot(Domain(s)) {
      DomainGivesLooksLike(s);
    }
  }

  /** Only the first two `@`-pieces matter, and the name part may be empty. */
  lemma NewIff(s: string)
    ensures New(s).Ok? <==> LooksLikeEmail(s)
  {
    NewDomain(s);
    LooksLikeDomain(s);
  }

  /** FromStr::from_str: the same check as `new`. */
  function FromStr(s: string): Result<EmailString, Unit> {
    New(s)
  }

  /** TryFrom<&str>: parses through FromStr. */
  function TryFrom(s: string): Result<EmailString, Unit> {
    FromStr(s)
  }

  /** Display writes the inner string. */
  function Display(e: EmailString): string {
    e.inner
  }

  /** Borrow<str>. */
  function Borrow(e: EmailString): string {
    e.inner
  }

  /** AsRef<str>. */
  function AsRef(e: EmailString): string {
    e.inner
  }

  /** From<EmailString> for String. */
  function IntoString(e: EmailString): string {
    e.inner
  }

  /** Every conversion agrees with `new`, and every view of an accepted e-mail string is the input. */
  lemma ConversionsAgree(s: string)
    ensures FromStr(s) == New(s) && TryFrom(s) == New(s)
    ensures New(s).Ok? ==> Display(New(s).value) == s && Borrow(New(s).value) == s
    ensures New(s).Ok? ==> AsRef(New(s).value) == s && IntoString(New(s).value) == s
  {
  }

  /** main: "my@email.com" converts. */
  lemma AcceptsExample(s: string)
    requires s == "my@email.com"
    ensures TryFrom(s).Ok?
  {
    NewIff(s);
    assert s[2] == '@' && s[8] == '.' && NoAt(s, 0, 2) && NoAt(s, 3, 8);
  }

  /** main: "not_an_email" does not convert. */
  lemma RejectsExample(s: string)
    requires s == "not_an_email"
    ensures TryFrom(s).Err?
  {
    NewIff(s);
    assert forall i :: 0 <= i < |s| ==> s[i] != '@';
  }
}
