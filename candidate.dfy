/** Candidate derivation: the URL and the file name a claimed id stands for
    (App.js lines 24-25). */
module Candidates {

  datatype Option<+T> = None | Some(value: T)

  /** The placeholder the URL template carries for the id. */
  const PLACEHOLDER: string := "{id}"

  /** The extension of every saved file. */
  const EXTENSION: string := ".mp4"

  predicate IsDigit(c: char) {
    '0' <= c <= '9'
  }

  predicate AllDigits(s: string) {
    forall i :: 0 <= i < |s| ==> IsDigit(s[i])
  }

  function DigitChar(d: nat): (c: char)
    requires d < 10
  {
    (('0' as int) + d) as char
  }

  function DigitValue(c: char): (d: nat)
    requires IsDigit(c)
  {
    (c as int) - ('0' as int)
  }

  /** The decimal digits of a natural number, most significant first, without
      leading zeros: what a template literal or String(n) prints for it. */
  function Digits(n: nat): (s: string)
    ensures |s| >= 1 && AllDigits(s)
    ensures s[0] == '0' ==> n == 0
    decreases n
  {
    if n < 10 then [DigitChar(n)] else Digits(n / 10) + [DigitChar(n % 10)]
  }

  /** The number a string of decimal digits denotes. */
  function ValueOf(s: string): (n: nat)
    requires AllDigits(s)
  {
    if s == [] then 0 else ValueOf(s[..|s| - 1]) * 10 + DigitValue(s[|s| - 1])
  }

  /** Reading back the digits gives the number again. */
  lemma {:induction false} ValueOfDigits(n: nat)
    ensures ValueOf(Digits(n)) == n
    decreases n
  {
    if n >= 10 {
      var s := Digits(n);
      assert s[..|s| - 1] == Digits(n / 10);
      ValueOfDigits(n / 10);
    }
  }

  /** The decimal rendering of an id, with a leading minus sign when negative. */
  function Decimal(id: int): (s: string)
    ensures |s| >= 1 && (s[0] == '-' <==> id < 0)
  {
    if id < 0 then "-" + Digits(-id) else Digits(id)
  }

  /** Two different ids never print the same. */
  lemma DecimalInjective(a: int, b: int)
    requires Decimal(a) == Decimal(b)
    ensures a == b
  {
    assert (a < 0) == (b < 0);
    if a < 0 {
      assert Digits(-a) == Decimal(a)[1..];
      assert Digits(-b) == Decimal(b)[1..];
      ValueOfDigits(-a);
      ValueOfDigits(-b);
    } else {
      ValueOfDigits(a);
      ValueOfDigits(b);
    }
  }

  /** `pat` occurs in `s` starting at position k. */
  predicate OccursAt(s: string, pat: string, k: nat) {
    k + |pat| <= |s| && s[k..k + |pat|] == pat
  }

  lemma OccursShift(s: string, pat: string)
    requires |s| > 0
    ensures forall k: nat :: 0 < k ==> (OccursAt(s, pat, k) <==> OccursAt(s[1..], pat, k - 1))
  {
  }

  /** The position of the first occurrence of `pat` in `s`, if any. */
  function IndexOf(s: string, pat: string): (r: Option<nat>)
    ensures r.Some? ==> OccursAt(s, pat, r.value)
    ensures r.Some? ==> forall j: nat :: j < r.value ==> !OccursAt(s, pat, j)
    ensures r.None? ==> forall j: nat :: !OccursAt(s, pat, j)
    decreases |s|
  {
    if |s| < |pat| then None
    else if s[..|pat|] == pat then Some(0)
    else
      OccursShift(s, pat);
      match IndexOf(s[1..], pat)
      case None => None
      case Some(k) => Some(k + 1)
  }

  /** JavaScript's `s.replace(pat, rep)` with a string pattern: only the first
      occurrence is replaced, scanning from the left. */
  function ReplaceFirst(s: string, pat: string, rep: string): (r: string)
    ensures IndexOf(s, pat).None? ==> r == s
    ensures IndexOf(s, pat).Some? ==>
              var k := IndexOf(s, pat).value;
              r == s[..k] + rep + s[k + |pat|..]
    decreases |s|
  {
    if |s| < |pat| then s
    else if s[..|pat|] == pat then rep + s[|pat|..]
    else
      var r := [s[0]] + ReplaceFirst(s[1..], pat, rep);
      assert IndexOf(s, pat).Some? ==>
        (IndexOf(s[1..], pat).Some? && IndexOf(s, pat).value == IndexOf(s[1..], pat).value + 1);
      r
  }

  /** The candidate URL for an id: the template with its first `{id}` replaced
      by the decimal id. */
  function CandidateUrl(template: string, id: int): (url: string)
    ensures IndexOf(template, PLACEHOLDER).None? ==> url == template
    ensures IndexOf(template, PLACEHOLDER).Some? ==>
              var k := IndexOf(template, PLACEHOLDER).value;
              && |url| == |template| - |PLACEHOLDER| + |Decimal(id)|
              && url[..k] == template[..k]
              && url[k..k + |Decimal(id)|] == Decimal(id)
              && url[k + |Decimal(id)|..] == template[k + |PLACEHOLDER|..]
  {
    ReplaceFirst(template, PLACEHOLDER, Decimal(id))
  }

  /** The name of the file an id is saved under. */
  function FileName(id: int): (name: string)
    ensures |name| > |EXTENSION| && name[|name| - |EXTENSION|..] == EXTENSION
    ensures name[..|name| - |EXTENSION|] == Decimal(id)
  {
    Decimal(id) + EXTENSION
  }

  /** When the template holds a placeholder, the URL is the template with the
      first placeholder replaced and everything else untouched, so distinct
      ids give distinct URLs. */
  lemma CandidateUrlInjective(template: string, a: int, b: int)
    requires IndexOf(template, PLACEHOLDER).Some?
    requires CandidateUrl(template, a) == CandidateUrl(template, b)
    ensures a == b
  {
    var k := IndexOf(template, PLACEHOLDER).value;
    var pre, post := template[..k], template[k + |PLACEHOLDER|..];
    var ua, ub := CandidateUrl(template, a), CandidateUrl(template, b);
    assert ua == pre + Decimal(a) + post;
    assert ub == pre + Decimal(b) + post;
    assert |Decimal(a)| == |Decimal(b)|;
    assert Decimal(a) == ua[|pre|..|pre| + |Decimal(a)|];
    assert Decimal(b) == ub[|pre|..|pre| + |Decimal(b)|];
    DecimalInjective(a, b);
  }

  /** Without a placeholder every id gets the template itself as its URL. */
  lemma CandidateUrlWithoutPlaceholder(template: string, id: int)
    requires forall j: nat :: !OccursAt(template, PLACEHOLDER, j)
    ensures CandidateUrl(template, id) == template
  {
  }

  /** Distinct ids are saved under distinct file names. */
  lemma FileNameInjective(a: int, b: int)
    requires FileName(a) == FileName(b)
    ensures a == b
  {
    assert Decimal(a) == FileName(a)[..|FileName(a)| - |EXTENSION|];
    DecimalInjective(a, b);
  }
}
