/**
 * The packet-filter gateway (src/firewall/manager.py): the set of authorised
 * IPs and the iptables / conntrack / sysctl commands issued to the kernel.
 *
 * A command's outcome is decided by a `Shell` oracle that sees the command and
 * its position in the command log, so the same command may fail once and
 * succeed later. The log records every command issued, failed or not.
 */
module Firewall {
  import opened Common

  /** The shell commands the gateway issues (interfaces, portal address and upstream DNS come from the configuration). */
  datatype Command =
    // initialize_rules, in the order the source lists them
    | FlushFilter           // iptables -F
    | DeleteChains          // iptables -X
    | FlushNat              // iptables -t nat -F
    | PolicyInputAccept     // iptables -P INPUT ACCEPT
    | PolicyOutputAccept    // iptables -P OUTPUT ACCEPT
    | PolicyForwardDrop     // iptables -P FORWARD DROP
    | AcceptEstablished     // FORWARD accept for ESTABLISHED,RELATED
    | AllowPortal           // INPUT accept from the LAN to the portal port
    | AllowDns              // INPUT accept from the LAN to udp/53
    | RedirectHttp          // PREROUTING DNAT of tcp/80 to the portal
    | Masquerade            // POSTROUTING MASQUERADE on the WAN
    | EnableForwarding      // sysctl -w net.ipv4.ip_forward=1
      // authorize_ip
    | AcceptFrom(ip: string, mac: string)        // FORWARD accept for this IP and MAC
    | BypassDns(mac: string)                     // PREROUTING DNAT of udp/53 to the upstream DNS
    | BypassHttp(mac: string)                    // PREROUTING accept of tcp/80
    | BypassHttps(mac: string)                   // PREROUTING accept of tcp/443
      // revoke_ip
    | DropFrom(mac: string)                      // FORWARD drop at position 1
    | ForgetConnections(ip: string)              // conntrack -D for the IP as source and destination
    | RemoveBypassDns(mac: string)
    | RemoveBypassHttp(mac: string)
    | RemoveBypassHttps(mac: string)
      // cleanup
    | PolicyForwardAccept   // iptables -P FORWARD ACCEPT

  /** Whether the command issued at a given position of the log exits with status 0. */
  type Shell = (Command, nat) -> bool

  /** The commands `initialize_rules` must all run successfully, in order. */
  const BASELINE: seq<Command> := [
    FlushFilter, DeleteChains, FlushNat,
    PolicyInputAccept, PolicyOutputAccept, PolicyForwardDrop,
    AcceptEstablished, AllowPortal, AllowDns, RedirectHttp, Masquerade
  ]

  /** The commands `cleanup` runs: flush and fail open. */
  const TEARDOWN: seq<Command> := [FlushFilter, FlushNat, PolicyForwardAccept]

  /** The NAT bypass rules installed after a successful accept rule. */
  function BypassRules(mac: string): seq<Command>
  {
    [BypassDns(mac), BypassHttp(mac), BypassHttps(mac)]
  }

  /** The commands that tear down one IP/MAC binding. */
  function RevokeRules(ip: string, mac: string): seq<Command>
  {
    [DropFrom(mac), ForgetConnections(ip), RemoveBypassDns(mac), RemoveBypassHttp(mac), RemoveBypassHttps(mac)]
  }

  /** Python truthiness of the MAC argument: neither None nor "". */
  predicate HasMac(mac: Option<string>)
  {
    mac.Some? && mac.value != ""
  }

  /** The gateway's state: `authorized_ips` and the commands issued so far. */
  datatype FwState = FwState(authorized: set<string>, log: seq<Command>)

  /** `authorize_ip(ip, mac)`: the new state and the result. */
  function Authorize(fw: FwState, ip: string, mac: Option<string>, shell: Shell): (r: (FwState, bool))
    // already authorised: success, nothing run, whatever the MAC
    ensures ip in fw.authorized ==> r == (fw, true)
    // no usable MAC for a new IP: refused, nothing run
    ensures ip !in fw.authorized && !HasMac(mac) ==> r == (fw, false)
    // only the FORWARD accept rule decides; the three NAT rules' outcomes are ignored
    ensures r.1 <==> ip in fw.authorized || (HasMac(mac) && shell(AcceptFrom(ip, mac.value), |fw.log|))
    ensures r.0.authorized == if r.1 then fw.authorized + {ip} else fw.authorized
    ensures ip !in fw.authorized && HasMac(mac) ==>
              && |r.0.log| > |fw.log|
              && r.0.log[..|fw.log|] == fw.log
              && r.0.log[|fw.log|] == AcceptFrom(ip, mac.value)
    // the accept rule, then the three bypass rules only when it succeeded
    ensures ip !in fw.authorized && HasMac(mac) ==>
              r.0.log == fw.log + [AcceptFrom(ip, mac.value)] + (if r.1 then BypassRules(mac.value) else [])
  {
    if ip in fw.authorized then (fw, true)
    else if !HasMac(mac) then (fw, false)
    else
      var rule := AcceptFrom(ip, mac.value);
      if shell(rule, |fw.log|) then
        (FwState(fw.authorized + {ip}, fw.log + [rule] + BypassRules(mac.value)), true)
      else
        (FwState(fw.authorized, fw.log + [rule]), false)
  }

  /** `revoke_ip(ip, mac)`: the new state and the result. */
  function Revoke(fw: FwState, ip: string, mac: Option<string>): (r: (FwState, bool))
    ensures r.1 <==> ip in fw.authorized
    // the IP is always discarded
    ensures r.0.authorized == fw.authorized - {ip}
    // commands run only for an authorised IP with a usable MAC
    ensures !(r.1 && HasMac(mac)) ==> r.0.log == fw.log
    ensures r.1 && HasMac(mac) ==> r.0.log == fw.log + RevokeRules(ip, mac.value)
  {
    if ip !in fw.authorized then (fw, false)
    else
      var undo := if HasMac(mac) then RevokeRules(ip, mac.value) else [];
      (FwState(fw.authorized - {ip}, fw.log + undo), true)
  }

  /** Revoking and then authorising the same pair again re-admits the IP when the accept rule succeeds. */
  lemma RebindAfterRevoke(fw: FwState, ip: string, mac: Option<string>, shell: Shell)
    requires ip in fw.authorized && HasMac(mac)
    requires shell(AcceptFrom(ip, mac.value), |fw.log| + |RevokeRules(ip, mac.value)|)
    ensures var revoked := Revoke(fw, ip, mac);
            var again := Authorize(revoked.0, ip, mac, shell);
            && revoked.1 && ip !in revoked.0.authorized
            && again.1 && again.0.authorized == fw.authorized
  {
  }

  /** The gateway object: `authorized_ips` and the command log are its fields. */
  class FirewallManager {
    var authorizedIps: set<string>
    var log: seq<Command>

    function State(): FwState
      reads this
    {
      FwState(authorizedIps, log)
    }

    constructor ()
      ensures authorizedIps == {} && log == []
    {
      authorizedIps := {};
      log := [];
    }

    /** `_run`: issue one command and report whether it exited with status 0. */
    method Run(cmd: Command, shell: Shell) returns (ok: bool)
      modifies this
      ensures log == old(log) + [cmd] && authorizedIps == old(authorizedIps)
      ensures ok == shell(cmd, |old(log)|)
    {
      ok := shell(cmd, |log|);
      log := log + [cmd];
    }

    /** `initialize_rules`: run the baseline in order, stop at the first failure; the forwarding switch's outcome is ignored. */
    method InitializeRules(shell: Shell) returns (ok: bool)
      modifies this
      ensures authorizedIps == old(authorizedIps)
      ensures ok <==> forall i :: 0 <= i < |BASELINE| ==> shell(BASELINE[i], |old(log)| + i)
      ensures ok ==> log == old(log) + BASELINE + [EnableForwarding]
      ensures !ok ==> exists k :: 0 <= k < |BASELINE| && log == old(log) + BASELINE[..k + 1]
                                   && !shell(BASELINE[k], |old(log)| + k)
                                   && forall j :: 0 <= j < k ==> shell(BASELINE[j], |old(log)| + j)
    {
      var i := 0;
      while i < |BASELINE|
        invariant 0 <= i <= |BASELINE|
        invariant authorizedIps == old(authorizedIps)
        invariant log == old(log) + BASELINE[..i]
        invariant forall j :: 0 <= j < i ==> shell(BASELINE[j], |old(log)| + j)
      {
        var done := Run(BASELINE[i], shell);
        if !done {
          return false;
        }
        i := i + 1;
      }
      var ignored := Run(EnableForwarding, shell);
      ok := true;
    }

    method AuthorizeIp(ip: string, mac: Option<string>, shell: Shell) returns (ok: bool)
      modifies this
      ensures (State(), ok) == Authorize(old(State()), ip, mac, shell)
    {
      if ip in authorizedIps {
        return true;
      }
      if !HasMac(mac) {
        return false;
      }
      var accepted := Run(AcceptFrom(ip, mac.value), shell);
      if accepted {
        var ignored := Run(BypassDns(mac.value), shell);
        ignored := Run(BypassHttp(mac.value), shell);
        ignored := Run(BypassHttps(mac.value), shell);
        assert log == old(log) + [AcceptFrom(ip, mac.value)] + BypassRules(mac.value);
        authorizedIps := authorizedIps + {ip};
        return true;
      }
      ok := false;
    }

    method RevokeIp(ip: string, mac: Option<string>, shell: Shell) returns (ok: bool)
      modifies this
      ensures (State(), ok) == Revoke(old(State()), ip, mac)
    {
      if ip !in authorizedIps {
        return false;
      }
      if HasMac(mac) {
        var ignored := Run(DropFrom(mac.value), shell);
        ignored := Run(ForgetConnections(ip), shell);
        ignored := Run(RemoveBypassDns(mac.value), shell);
        ignored := Run(RemoveBypassHttp(mac.value), shell);
        ignored := Run(RemoveBypassHttps(mac.value), shell);
        assert log == old(log) + RevokeRules(ip, mac.value);
      }
      authorizedIps := authorizedIps - {ip};
      ok := true;
    }

    /** `cleanup`: flush and restore a default-allow FORWARD policy; `authorized_ips` is left as it was. */
    method Cleanup(shell: Shell)
      modifies this
      ensures authorizedIps == old(authorizedIps)
      ensures log == old(log) + TEARDOWN
    {
      var ignored := Run(FlushFilter, shell);
      ignored := Run(FlushNat, shell);
      ignored := Run(PolicyForwardAccept, shell);
    }
  }
}
