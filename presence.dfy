/**
  Presence aggregation (`TapoController._is_online` and `TapoController._any_online`
  in app/app.py). The network probe itself is not modelled: each host's ping is given
  as the sequence of success flags of its result lines.
 */
module Presence {

  /** The success flag of every line of one host's ping result. */
  type PingResult = seq<bool>

  /** `_is_online`: `all(...)` over the result lines, so true for an empty result. */
  function IsOnline(lines: PingResult): (online: bool)
    ensures online <==> forall i :: 0 <= i < |lines| ==> lines[i]
  {
    if |lines| == 0 then true else lines[0] && IsOnline(lines[1..])
  }

  /** `_any_online`: `any(...)` of `_is_online` over the configured hosts, in order. */
  function AnyOnline(hosts: seq<PingResult>): (present: bool)
    ensures present <==> exists h :: 0 <= h < |hosts| && IsOnline(hosts[h])
  {
    if |hosts| == 0 then false
    else
      var rest := AnyOnline(hosts[1..]);
      assert rest ==> exists h :: 0 <= h < |hosts| && IsOnline(hosts[h]) by {
        if rest {
          var h :| 0 <= h < |hosts[1..]| && IsOnline(hosts[1..][h]);
          assert IsOnline(hosts[h + 1]);
        }
      }
      IsOnline(hosts[0]) || rest
  }

  /** Presence read off the ping lines directly: some host has no failed result line. */
  lemma AnyOnlineByLines(hosts: seq<PingResult>)
    ensures AnyOnline(hosts) <==> exists h :: 0 <= h < |hosts| && false !in hosts[h]
  {
    forall h | 0 <= h < |hosts|
      ensures IsOnline(hosts[h]) <==> false !in hosts[h]
    {
      if false in hosts[h] {
        var l :| 0 <= l < |hosts[h]| && hosts[h][l] == false;
      }
    }
  }

  /**
    How many hosts `_any_online` pings: `any` consumes its generator lazily and stops
    at the first host found online, so the hosts after it are never probed.
   */
  function ProbedHosts(hosts: seq<PingResult>): (n: nat)
    ensures n <= |hosts|
    ensures forall k :: 0 <= k < n - 1 ==> !IsOnline(hosts[k])
    ensures AnyOnline(hosts) ==> 0 < n && IsOnline(hosts[n - 1])
    ensures !AnyOnline(hosts) ==> n == |hosts|
  {
    if |hosts| == 0 then 0
    else if IsOnline(hosts[0]) then 1
    else
      var n := 1 + ProbedHosts(hosts[1..]);
      assert forall k :: 1 <= k < n - 1 ==> hosts[k] == hosts[1..][k - 1];
      n
  }

  /** Stopping early does not change the answer: the probed hosts alone decide presence. */
  lemma {:induction false} ProbedHostsDecide(hosts: seq<PingResult>)
    ensures AnyOnline(hosts[..ProbedHosts(hosts)]) == AnyOnline(hosts)
  {
    var n := ProbedHosts(hosts);
    if AnyOnline(hosts) {
      assert hosts[..n][n - 1] == hosts[n - 1];
    } else {
      assert hosts[..n] == hosts;
    }
  }
}
