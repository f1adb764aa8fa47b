/** Resolving the OS type named on the command line against the distributions
    supported for the machine's architecture. */
module OsMatching {
  import opened Errors

  /** A supported distribution: its name and its aliases. */
  datatype OsType = OsType(osName: string, osAliases: seq<string>)

  /** Upper-casing of one character (ASCII letters). */
  function UpperChar(c: char): char
  {
    if 'a' <= c <= 'z' then (c as int - 32) as char else c
  }

  function Upper(s: string): string
  {
    seq(|s|, i requires 0 <= i < |s| => UpperChar(s[i]))
  }

  function UpperAll(xs: seq<string>): seq<string>
  {
    seq(|xs|, i requires 0 <= i < |xs| => Upper(xs[i]))
  }

  /** `t` occurs in `s` as a contiguous substring (Python's `t in s` on strings). */
  predicate IsInfix(t: string, s: string)
  {
    t <= s || (s != [] && IsInfix(t, s[1..]))
  }

  /** The upper-cased input is a substring of the upper-cased name, or equals
      one of the upper-cased aliases. */
  predicate Matches(o: OsType, osType: string)
  {
    IsInfix(Upper(osType), Upper(o.osName)) || Upper(osType) in UpperAll(o.osAliases)
  }

  const NoMatchMessage := "Could not detect OS type"

  /** The first supported distribution, in list order, that the input matches;
      `CriticalError` when there is none. */
  function GetMatchingOsType(supported: seq<OsType>, osType: string): (r: Result<OsType>)
    ensures r.Ok? <==> exists i :: 0 <= i < |supported| && Matches(supported[i], osType)
    ensures r.Ok? ==> exists i :: 0 <= i < |supported| && supported[i] == r.value && Matches(r.value, osType)
                                  && forall k :: 0 <= k < i ==> !Matches(supported[k], osType)
    ensures r.Err? ==> r.error == CriticalError(NoMatchMessage)
  {
    if supported == [] then Err(CriticalError(NoMatchMessage))
    else if Matches(supported[0], osType) then Ok(supported[0])
    else
      var r := GetMatchingOsType(supported[1..], osType);
      assert forall i :: 0 < i < |supported| ==> supported[i] == supported[1..][i - 1];
      r
  }

  /** Matching is case-insensitive: two inputs that upper-case alike resolve alike. */
  lemma {:induction false} MatchingIgnoresCase(supported: seq<OsType>, a: string, b: string)
    requires Upper(a) == Upper(b)
    ensures GetMatchingOsType(supported, a) == GetMatchingOsType(supported, b)
  {
    if supported != [] {
      assert Matches(supported[0], a) == Matches(supported[0], b);
      MatchingIgnoresCase(supported[1..], a, b);
    }
  }

  /** An empty input is a substring of every name, so it resolves to the first entry. */
  lemma EmptyInputMatchesFirst(supported: seq<OsType>)
    requires supported != []
    ensures GetMatchingOsType(supported, "") == Ok(supported[0])
  {
  }
}
