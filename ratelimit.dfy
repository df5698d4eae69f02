/**
 * The rate-limit helper: the client identifier taken from the request
 * headers, and the decision on the limiter's answer. The limiter itself
 * (a sliding window kept in Redis) is outside the model; its answer
 * `(success, reset)` and the clock reading `now` are parameters.
 */
module RateLimit {
  import opened Wrappers
  import Strings

  /** `s.split(c)`: the pieces between occurrences of `c`; an empty string gives one empty piece. */
  function Split(s: string, c: char): (r: seq<string>)
    ensures |r| >= 1
    ensures forall k | 0 <= k < |r| :: c !in r[k]
    ensures |r[0]| <= |s| && r[0] == s[..|r[0]|]
    ensures |r[0]| < |s| ==> s[|r[0]|] == c
  {
    if s == [] then [[]]
    else if s[0] == c then [[]] + Split(s[1..], c)
    else
      var rest := Split(s[1..], c);
      [[s[0]] + rest[0]] + rest[1..]
  }

  /** Joining the pieces with the separator gives the string back. */
  lemma {:induction false} SplitJoinRoundTrip(s: string, c: char)
    ensures Strings.Join([c], Split(s, c)) == s
  {
    if s != [] {
      var rest := Split(s[1..], c);
      SplitJoinRoundTrip(s[1..], c);
      if s[0] == c {
        assert Strings.Join([c], [[]] + rest) == [] + [c] + Strings.Join([c], rest);
        assert s == [s[0]] + s[1..];
      } else {
        var r := [[s[0]] + rest[0]] + rest[1..];
        assert r[1..] == rest[1..];
        if |rest| == 1 {
          assert s == [s[0]] + s[1..];
        } else {
          assert Strings.Join([c], rest) == rest[0] + [c] + Strings.Join([c], rest[1..]);
          assert Strings.Join([c], r) == [s[0]] + rest[0] + [c] + Strings.Join([c], rest[1..]);
          assert s == [s[0]] + s[1..];
        }
      }
    }
  }

  /**
   * getClientIp: the first comma-separated entry of x-forwarded-for, trimmed,
   * when that header is present and non-empty; else a non-empty x-real-ip;
   * else "unknown". A forwarded header whose first entry is blank gives "".
   */
  function GetClientIp(forwarded: Option<string>, realIp: Option<string>): (r: string)
    ensures forwarded.Some? && forwarded.value != [] ==>
              var first := Split(forwarded.value, ',')[0];
              && r == Strings.Trim(first)
              && ',' !in r
              && first == forwarded.value[..|first|]
    ensures (forwarded.None? || forwarded.value == []) && realIp.Some? && realIp.value != [] ==> r == realIp.value
    ensures (forwarded.None? || forwarded.value == []) && (realIp.None? || realIp.value == []) ==> r == "unknown"
  {
    if forwarded.Some? && forwarded.value != [] then
      var first := Split(forwarded.value, ',')[0];
      var r := Strings.Trim(first);
      assert r == first[Strings.LeadingSpaces(first)..Strings.LeadingSpaces(first) + |r|];
      assert forall i | 0 <= i < |r| :: r[i] in first;
      r
    else if realIp.Some? && realIp.value != [] then realIp.value
    else "unknown"
  }

  /** A forwarded header whose first entry is blank yields "" instead of falling back. */
  lemma BlankForwardedEntry(forwarded: string, realIp: Option<string>)
    requires forwarded != []
    requires forall i | 0 <= i < |Split(forwarded, ',')[0]| :: Strings.IsSpace(Split(forwarded, ',')[0][i])
    ensures GetClientIp(Some(forwarded), realIp) == ""
  {
    Strings.TrimEmptyIffBlank(Split(forwarded, ',')[0]);
  }

  /** The 429 answer: status, JSON body and the Retry-After header text. */
  datatype Denial = Denial(status: int, success: bool, error: string, retryAfter: string)

  /** Math.floor((reset - now) / 1000): whole seconds until the window resets, rounded down. */
  function RetryAfterSeconds(reset: int, now: int): (s: int)
    ensures s * 1000 <= reset - now < s * 1000 + 1000
  {
    (reset - now) / 1000
  }

  /** rateLimit: None lets the request through; a denial carries 429 and Retry-After. */
  function Decide(success: bool, reset: int, now: int): (r: Option<Denial>)
    ensures success <==> r.None?
    ensures r.Some? ==> r.value.status == 429 && !r.value.success && r.value.error == "Rate limit exceeded"
    ensures r.Some? ==> r.value.retryAfter == Strings.IntToString(RetryAfterSeconds(reset, now))
  {
    if success then None
    else Some(Denial(429, false, "Rate limit exceeded", Strings.IntToString(RetryAfterSeconds(reset, now))))
  }

  /** While the reset lies ahead, the header reads back as the non-negative whole seconds. */
  lemma RetryAfterReadsBack(reset: int, now: int)
    requires reset >= now
    ensures var d := Decide(false, reset, now).value.retryAfter;
            && d != [] && d[0] != '-'
            && Strings.DecimalValue(d) * 1000 <= reset - now < Strings.DecimalValue(d) * 1000 + 1000
  {
    var s := RetryAfterSeconds(reset, now);
    Strings.NatToStringRoundTrip(s);
  }
}
