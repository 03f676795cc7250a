/** TenantController.IsValidSubdomain: the pattern ^[a-z0-9]([a-z0-9-]*[a-z0-9])?$ and a
    length of 3 to 50.

    The pattern is run as the automaton it denotes. Under .NET rules '$' without the
    Multiline option matches at the end of the input and also just before a final '\n', so
    the code as written accepts a subdomain followed by one line feed. The tenant
    controller uses IsValidSubdomainAsWritten, as the code does; IsValidSubdomain is the
    evidently intended check, which does not accept it. */
module Subdomain {

  predicate IsLowerAlnum(c: char) { ('a' <= c <= 'z') || ('0' <= c <= '9') }

  /** The class [a-z0-9-]. */
  predicate IsSubdomainChar(c: char) { IsLowerAlnum(c) || c == '-' }

  /** The automaton's states: nothing read yet, last read an alphanumeric (accepting), last
      read a hyphen after a valid start, and failed. */
  datatype State = Start | AfterAlnum | AfterHyphen | Dead

  function Step(q: State, c: char): State {
    if q == Dead then Dead
    else if IsLowerAlnum(c) then AfterAlnum
    else if c == '-' && q != Start then AfterHyphen
    else Dead
  }

  function Run(q: State, s: string): State
    decreases |s|
  {
    if s == [] then q else Run(Step(q, s[0]), s[1..])
  }

  /** The whole of s matches [a-z0-9]([a-z0-9-]*[a-z0-9])?. */
  predicate MatchesLabel(s: string) {
    Run(Start, s) == AfterAlnum
  }

  /** Regex.IsMatch with the pattern anchored by ^...$, '$' taken as .NET takes it. */
  predicate RegexIsMatch(s: string) {
    MatchesLabel(s) || (|s| > 0 && s[|s| - 1] == '\n' && MatchesLabel(s[..|s| - 1]))
  }

  /** IsValidSubdomain as written. */
  predicate IsValidSubdomainAsWritten(s: string) {
    s != "" && RegexIsMatch(s) && 3 <= |s| <= 50
  }

  /** IsValidSubdomain as intended: the pattern must match the whole string. */
  predicate IsValidSubdomain(s: string) {
    s != "" && MatchesLabel(s) && 3 <= |s| <= 50
  }

  /** The shape of a label, stated without the automaton. */
  predicate WellFormed(s: string) {
    && |s| > 0
    && (forall i :: 0 <= i < |s| ==> IsSubdomainChar(s[i]))
    && s[0] != '-' && s[|s| - 1] != '-'
  }

  /** The states the automaton can be in after reading s from a non-failed state q. */
  lemma {:induction false} RunFacts(q: State, s: string)
    requires q != Dead
    decreases |s|
    ensures Run(q, s) != Dead <==>
      (forall i :: 0 <= i < |s| ==> IsSubdomainChar(s[i])) && (q == Start && |s| > 0 ==> s[0] != '-')
    ensures Run(q, s) == AfterAlnum <==>
      Run(q, s) != Dead && (if |s| == 0 then q == AfterAlnum else s[|s| - 1] != '-')
  {
    if s != [] {
      var q' := Step(q, s[0]);
      if q' == Dead {
        assert Run(q, s) == Dead by { DeadStays(s[1..]); }
      } else {
        RunFacts(q', s[1..]);
        assert forall i :: 1 <= i < |s| ==> s[1..][i - 1] == s[i];
        if |s| > 1 {
          assert s[1..][|s[1..]| - 1] == s[|s| - 1];
        }
      }
    }
  }

  /** The failed state is final. */
  lemma {:induction false} DeadStays(s: string)
    ensures Run(Dead, s) == Dead
  {
    if s != [] {
      DeadStays(s[1..]);
    }
  }

  /** The pattern matches exactly the well-formed labels. */
  lemma MatchesLabelIff(s: string)
    ensures MatchesLabel(s) <==> WellFormed(s)
  {
    RunFacts(Start, s);
  }

  /** IsValidSubdomain holds exactly when s is non-empty, uses only [a-z0-9-], neither starts
      nor ends with '-', and has 3 to 50 characters. */
  lemma IsValidSubdomainIff(s: string)
    ensures IsValidSubdomain(s) <==>
      && |s| > 0
      && (forall i :: 0 <= i < |s| ==> IsSubdomainChar(s[i]))
      && s[0] != '-' && s[|s| - 1] != '-'
      && 3 <= |s| <= 50
  {
    MatchesLabelIff(s);
  }

  /** A valid subdomain has no upper-case letter. */
  lemma ValidIsLowerCase(s: string)
    requires IsValidSubdomain(s)
    ensures forall i :: 0 <= i < |s| ==> !('A' <= s[i] <= 'Z')
  {
    MatchesLabelIff(s);
  }

  /** The code as written accepts the intended subdomains and, besides them, exactly a
      well-formed label followed by one '\n', the whole 3 to 50 characters long. */
  lemma AsWrittenIff(s: string)
    ensures IsValidSubdomainAsWritten(s) <==>
      IsValidSubdomain(s)
      || (3 <= |s| <= 50 && s[|s| - 1] == '\n' && WellFormed(s[..|s| - 1]))
  {
    MatchesLabelIff(s);
    if |s| > 0 {
      MatchesLabelIff(s[..|s| - 1]);
    }
  }

  /** "ab\n" passes the check as written although it holds a line feed. */
  lemma AsWrittenAcceptsNewline()
    ensures IsValidSubdomainAsWritten("ab\n")
    ensures !IsValidSubdomain("ab\n")
  {
    var s := "ab\n";
    assert s[..2] == "ab";
    assert MatchesLabel("ab");
    assert Run(Start, s) == Dead by { DeadStays(""); }
  }
}
