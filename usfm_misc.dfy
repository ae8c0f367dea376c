/**
 * The USFM helpers of the tree: the header parser (a last-wins map from tag to
 * content) and the numeric-key filter built on `parseInt`.
 */
module UsfmMisc {
  import opened JsBuiltins

  /** One `{tag, content}` entry of a parsed book's header section; a missing field is the empty string. */
  datatype HeaderEntry = HeaderEntry(tag: string, content: string)

  /** An entry the header parser keeps: both its tag and its content are non-empty (truthy). */
  predicate Qualifies(e: HeaderEntry)
  {
    e.tag != "" && e.content != ""
  }

  /** `parseUsfmHeaders`: fold the entries left to right, each qualifying one overwriting its tag. */
  function ParseUsfmHeaders(headers: seq<HeaderEntry>): map<string, string>
  {
    if headers == [] then map[]
    else
      var parsed := ParseUsfmHeaders(headers[..|headers| - 1]);
      var e := headers[|headers| - 1];
      if Qualifies(e) then parsed[e.tag := e.content] else parsed
  }

  /** The tags of the parsed headers are exactly the tags of the qualifying entries. */
  lemma {:induction false} HeaderTags(headers: seq<HeaderEntry>)
    ensures ParseUsfmHeaders(headers).Keys == set e | e in headers && Qualifies(e) :: e.tag
  {
    if headers != [] {
      var init := headers[..|headers| - 1];
      HeaderTags(init);
      assert headers == init + [headers[|headers| - 1]];
    }
  }

  /** For a repeated tag the last qualifying entry's content wins. */
  lemma {:induction false} HeaderLastWins(headers: seq<HeaderEntry>, i: nat)
    requires i < |headers| && Qualifies(headers[i])
    requires forall j :: i < j < |headers| && Qualifies(headers[j]) ==> headers[j].tag != headers[i].tag
    ensures headers[i].tag in ParseUsfmHeaders(headers)
    ensures ParseUsfmHeaders(headers)[headers[i].tag] == headers[i].content
  {
    if i < |headers| - 1 {
      HeaderLastWins(headers[..|headers| - 1], i);
    }
  }

  /** The value `parseUsfmHeaders(headers)[tag]` reads: undefined when the tag is absent. */
  function HeaderValue(headers: seq<HeaderEntry>, tag: string): Option<string>
  {
    var parsed := ParseUsfmHeaders(headers);
    if tag in parsed then Some(parsed[tag]) else None
  }

  /** `is_number`: `parseInt` does not give NaN. It is decided by skipping white space and looking at what starts there. */
  predicate IsNumber(s: string)
  {
    if s != [] && IsStrWhiteSpace(s[0]) then IsNumber(s[1..]) else StartsNumber(s)
  }

  /** `is_number(s)` holds exactly when `parseInt(s)` is a number. */
  lemma {:induction false} IsNumberIsNotNaN(s: string)
    ensures IsNumber(s) <==> ParseInt(s).Some?
  {
    if s != [] && IsStrWhiteSpace(s[0]) {
      IsNumberIsNotNaN(s[1..]);
    } else {
      ParseTrimmedDefined(s);
    }
  }

  /** The integer `parseInt` reads from a numeric key. */
  function KeyNumber(s: string): int
    requires IsNumber(s)
  {
    if s != [] && IsStrWhiteSpace(s[0]) then KeyNumber(s[1..])
    else
      ParseTrimmedDefined(s);
      ParseTrimmed(s).value
  }

  /** `KeyNumber` is the number `parseInt` reads. */
  lemma {:induction false} KeyNumberIsParseInt(s: string)
    requires IsNumber(s)
    ensures ParseInt(s) == Some(KeyNumber(s))
  {
    if s != [] && IsStrWhiteSpace(s[0]) {
      KeyNumberIsParseInt(s[1..]);
    } else {
      ParseTrimmedDefined(s);
    }
  }

  /** The decimal text of an integer is a numeric key naming that integer. */
  lemma KeyNumberOfIntToString(n: int)
    ensures IsNumber(IntToString(n)) && KeyNumber(IntToString(n)) == n
  {
    ParseIntOfIntToString(n);
    IsNumberIsNotNaN(IntToString(n));
    KeyNumberIsParseInt(IntToString(n));
  }

  /** The elements of `xs` that satisfy `is_number`, in order: what `only_numbers` accumulates. */
  function NumbersIn(xs: seq<string>): seq<string>
  {
    if xs == [] then []
    else
      var kept := NumbersIn(xs[..|xs| - 1]);
      if IsNumber(xs[|xs| - 1]) then kept + [xs[|xs| - 1]] else kept
  }

  /** `only_numbers`: a reduce that pushes every numeric element onto its accumulator. */
  method OnlyNumbers(toFilter: seq<string>) returns (acc: seq<string>)
    ensures acc == NumbersIn(toFilter)
  {
    acc := [];
    var i := 0;
    while i < |toFilter|
      invariant 0 <= i <= |toFilter|
      invariant acc == NumbersIn(toFilter[..i])
    {
      var curr := toFilter[i];
      if IsNumber(curr) {
        acc := acc + [curr];
      }
      assert toFilter[..i + 1][..i] == toFilter[..i];
      i := i + 1;
    }
    assert toFilter[..i] == toFilter;
  }

  /** `a` is `b` with some elements deleted, the rest kept in order. */
  predicate IsSubsequence(a: seq<string>, b: seq<string>)
  {
    if a == [] then true
    else if b == [] then false
    else if a[|a| - 1] == b[|b| - 1] then IsSubsequence(a[..|a| - 1], b[..|b| - 1])
    else IsSubsequence(a, b[..|b| - 1])
  }

  lemma {:induction false} EmptyIsSubsequence(b: seq<string>)
    ensures IsSubsequence([], b)
  {
  }

  /**
   * `only_numbers` keeps exactly the numeric elements: every element it returns is
   * numeric, each numeric string occurs as often as in the input, no other string
   * occurs, and the output is a subsequence of the input.
   */
  lemma {:induction false} NumbersInKeepsExactlyNumbers(xs: seq<string>)
    ensures forall x :: x in NumbersIn(xs) ==> IsNumber(x)
    ensures forall x :: multiset(NumbersIn(xs))[x] == if IsNumber(x) then multiset(xs)[x] else 0
    ensures IsSubsequence(NumbersIn(xs), xs)
  {
    if xs != [] {
      var init := xs[..|xs| - 1];
      var last := xs[|xs| - 1];
      NumbersInKeepsExactlyNumbers(init);
      assert xs == init + [last];
      assert multiset(xs) == multiset(init) + multiset{last};
      if IsNumber(last) {
        assert NumbersIn(xs)[..|NumbersIn(xs)| - 1] == NumbersIn(init);
      } else {
        SubsequenceOfLonger(NumbersIn(init), init, last);
      }
    }
  }

  lemma {:induction false} SubsequenceOfLonger(a: seq<string>, b: seq<string>, x: string)
    requires IsSubsequence(a, b)
    ensures IsSubsequence(a, b + [x])
    decreases |a| + |b|, 1
  {
    if a != [] {
      assert (b + [x])[..|b|] == b;
      if a[|a| - 1] == x {
        SubsequenceDropLast(a, b);
      }
    }
  }

  lemma {:induction false} SubsequenceDropLast(a: seq<string>, b: seq<string>)
    requires a != [] && IsSubsequence(a, b)
    ensures IsSubsequence(a[..|a| - 1], b)
    decreases |a| + |b|, 0
  {
    var init := a[..|a| - 1];
    if init == [] {
      EmptyIsSubsequence(b);
    } else if a[|a| - 1] == b[|b| - 1] {
      SubsequenceOfLonger(init, b[..|b| - 1], b[|b| - 1]);
      assert b[..|b| - 1] + [b[|b| - 1]] == b;
    } else {
      SubsequenceDropLast(a, b[..|b| - 1]);
      SubsequenceOfLonger(init, b[..|b| - 1], b[|b| - 1]);
      assert b[..|b| - 1] + [b[|b| - 1]] == b;
    }
  }

  /** Filtering a second time changes nothing. */
  lemma {:induction false} NumbersInIdempotent(xs: seq<string>)
    ensures NumbersIn(NumbersIn(xs)) == NumbersIn(xs)
  {
    if xs != [] {
      var init := xs[..|xs| - 1];
      NumbersInIdempotent(init);
      NumbersInKeepsExactlyNumbers(init);
      if IsNumber(xs[|xs| - 1]) {
        var r := NumbersIn(xs);
        assert r[..|r| - 1] == NumbersIn(init);
      }
    }
  }
}
