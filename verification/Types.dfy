// The values that probers and the coordinator exchange (internal/check/check.go).

/** Optional values, standing for Go's zero time and missing map entries. */
module Wrappers {
  datatype Option<+T> = None | Some(value: T)
}

/**
 * Checks, probers and results.
 *
 * Instants and durations are integers counting nanoseconds.
 */
module Types {
  type Time = int

  /** Go's zero `time.Time`, which the source uses to mean "not set". */
  const ZERO_TIME: Time := 0

  /** What a prober concluded. A status string the source does not know is handled like Unknown. */
  datatype Status = Up | Down | Warning | Unknown

  datatype Vantage = Public | Internal

  /** How many probers must agree, how many are asked, and whether they must sit behind different providers. */
  datatype QuorumRule = QuorumRule(agree: int, asked: int, distinctProviders: bool)

  /** One thing to watch. `probers` empty means that the whole fleet is eligible. */
  datatype Check = Check(
    name: string,
    vantage: Vantage,
    quorum: QuorumRule,
    proxyProfile: string,
    prober: string,
    probers: seq<string>)

  /** One prober's answer about one check. */
  datatype Result = Result(
    check: string,
    prober: string,
    provider: string,
    vantage: Vantage,
    status: Status,
    at: Time,
    proxyProfile: string,
    egress: string)

  /** A registered prober; `proxyProfiles` maps a profile name to the exit it uses. */
  datatype Peer = Peer(name: string, provider: string, proxyProfiles: map<string, string>)

  /** The white space that `strings.TrimSpace` removes. */
  predicate IsSpace(c: char) {
    || c in {'\t', '\n', '\U{0B}', '\U{0C}', '\r', ' ', '\U{85}', '\U{A0}', '\U{1680}'}
    || '\U{2000}' <= c <= '\U{200A}'
    || c in {'\U{2028}', '\U{2029}', '\U{202F}', '\U{205F}', '\U{3000}'}
  }

  function TrimLeft(s: string): string {
    if s != "" && IsSpace(s[0]) then TrimLeft(s[1..]) else s
  }

  function TrimRight(s: string): string {
    if s != "" && IsSpace(s[|s| - 1]) then TrimRight(s[..|s| - 1]) else s
  }

  function TrimSpace(s: string): string {
    TrimRight(TrimLeft(s))
  }

  /** Only white space is removed, and only at the ends, and all of it. */
  lemma TrimSpaceExactly(s: string) returns (i: nat, j: nat)
    ensures i <= j <= |s| && TrimSpace(s) == s[i..j]
    ensures forall k | 0 <= k < i || j <= k < |s| :: IsSpace(s[k])
    ensures i < j ==> !IsSpace(s[i]) && !IsSpace(s[j - 1])
  {
    hide IsSpace;
    i := TrimLeftExactly(s);
    var n := TrimRightExactly(s[i..]);
    j := i + n;
    assert s[i..][..n] == s[i..j];
    forall k | j <= k < |s| ensures IsSpace(s[k]) {
      assert s[i..][k - i] == s[k];
    }
  }

  lemma {:induction false} TrimLeftExactly(s: string) returns (i: nat)
    ensures i <= |s| && TrimLeft(s) == s[i..] && (i < |s| ==> !IsSpace(s[i]))
    ensures forall k | 0 <= k < i :: IsSpace(s[k])
  {
    hide IsSpace;
    i := 0;
    if s != "" && IsSpace(s[0]) {
      var n := TrimLeftExactly(s[1..]);
      i := n + 1;
      assert s[1..][n..] == s[i..];
      forall k | 0 <= k < i ensures IsSpace(s[k]) {
        assert k > 0 ==> s[1..][k - 1] == s[k];
      }
    }
  }

  lemma {:induction false} TrimRightExactly(s: string) returns (j: nat)
    ensures j <= |s| && TrimRight(s) == s[..j] && (j > 0 ==> !IsSpace(s[j - 1]))
    ensures forall k | j <= k < |s| :: IsSpace(s[k])
  {
    hide IsSpace;
    j := |s|;
    if s != "" && IsSpace(s[|s| - 1]) {
      j := TrimRightExactly(s[..|s| - 1]);
    }
  }
}
