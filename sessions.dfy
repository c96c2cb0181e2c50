/**
 * The session table and its pairing with the gateway (src/auth/sessions.py).
 *
 * `Portal` is the state of a `SessionManager` and the `FirewallManager` it
 * owns: the rows in the dict's insertion order, the rows themselves and the
 * gateway state. The functions below give each operation's effect on that
 * state; the class further down performs the operations on real fields and is
 * proved to match them. The monitor thread becomes `MonitorTick`, called with
 * the current time and a MAC resolver.
 */
module Sessions {
  import opened Common
  import opened Firewall
  import Config

  /** One row: who logged in, when, and the MAC resolved at that moment. */
  datatype Session = Session(username: string, loginTime: int, mac: Option<string>)

  /** The session rows in the dict's insertion order, and the gateway they drive. */
  datatype Portal = Portal(order: seq<string>, sessions: map<string, Session>, fw: FwState)

  /** `get_mac_from_ip`: the MAC currently observed for an IP, if any. */
  type Resolver = string -> Option<string>

  predicate Distinct(s: seq<string>)
  {
    forall i, j :: 0 <= i < j < |s| ==> s[i] != s[j]
  }

  /**
   * The pairing invariant: a row exists exactly when its IP is in
   * `authorized_ips`, and the insertion order lists each row once.
   */
  predicate Paired(p: Portal)
  {
    && Distinct(p.order)
    && (forall ip :: ip in p.order ==> ip in p.sessions)
    && (forall ip :: ip in p.sessions ==> ip in p.order)
    && p.sessions.Keys == p.fw.authorized
  }

  /** A fresh manager over a gateway with nothing authorised. */
  lemma InitiallyPaired(fw: FwState)
    requires fw.authorized == {}
    ensures Paired(Portal([], map[], fw))
  {
  }

  /** The order after `del sessions[x]`. */
  function Without(s: seq<string>, x: string): (r: seq<string>)
    ensures forall y :: y in r <==> y in s && y != x
    ensures Distinct(s) ==> Distinct(r)
  {
    if s == [] then []
    else
      var rest := Without(s[1..], x);
      if s[0] == x then rest
      else
        assert Distinct(s) ==> s[0] !in rest;
        [s[0]] + rest
  }

  /** The tail of a list of distinct keys is distinct and lacks the head. */
  lemma DistinctTail(s: seq<string>)
    requires s != [] && Distinct(s)
    ensures Distinct(s[1..]) && s[0] !in s[1..]
  {
    forall i, j | 0 <= i < j < |s| - 1
      ensures s[1..][i] != s[1..][j]
    {
      assert s[1..][i] == s[i + 1] && s[1..][j] == s[j + 1];
    }
    forall k | 0 <= k < |s| - 1
      ensures s[1..][k] != s[0]
    {
      assert s[1..][k] == s[k + 1];
    }
  }

  /** Putting `a` in front of a sequence with `x` spliced in at `j` splices `x` in at `j + 1`. */
  lemma ConsSplice(a: string, rest: seq<string>, x: string, j: nat)
    requires j <= |rest|
    ensures var r := [a] + rest;
            [a] + (rest[..j] + [x] + rest[j..]) == r[..j + 1] + [x] + r[j + 1..]
  {
    var r := [a] + rest;
    assert r[..j + 1] == [a] + rest[..j];
    assert r[j + 1..] == rest[j..];
  }

  /** `del` of an absent key leaves the order as it was. */
  lemma {:induction false} WithoutAbsent(s: seq<string>, x: string)
    ensures x !in s ==> Without(s, x) == s
  {
    if s != [] && x !in s {
      assert x !in s[1..];
      WithoutAbsent(s[1..], x);
      assert s == [s[0]] + s[1..];
    }
  }

  /** `Without` keeps the other keys in their order: a key present once is cut
      out of the place where it stood. */
  lemma {:induction false} WithoutSplice(s: seq<string>, x: string)
    ensures Distinct(s) && x in s ==>
              exists i :: 0 <= i <= |Without(s, x)| && s == Without(s, x)[..i] + [x] + Without(s, x)[i..]
  {
    if s != [] && Distinct(s) && x in s {
      var rest := Without(s[1..], x);
      if s[0] == x {
        DistinctTail(s);
        WithoutAbsent(s[1..], x);
        assert Without(s, x) == rest == s[1..];
        assert s == rest[..0] + [x] + rest[0..];
      } else {
        DistinctTail(s);
        assert x in s[1..];
        WithoutSplice(s[1..], x);
        var j :| 0 <= j <= |rest| && s[1..] == rest[..j] + [x] + rest[j..];
        var r := [s[0]] + rest;
        assert Without(s, x) == r;
        ConsSplice(s[0], rest, x, j);
        assert s == [s[0]] + s[1..];
        assert s == r[..j + 1] + [x] + r[j + 1..];
      }
    }
  }

  /** The elements of `s` that pass `keep`, in order. */
  function Filter(s: seq<string>, keep: string -> bool): (r: seq<string>)
    ensures forall x :: x in r <==> x in s && keep(x)
    ensures Distinct(s) ==> Distinct(r)
  {
    if s == [] then []
    else
      var init := Filter(s[..|s| - 1], keep);
      var last := s[|s| - 1];
      assert forall x :: x in s[..|s| - 1] ==> x in s;
      assert Distinct(s) ==> last !in s[..|s| - 1];
      init + (if keep(last) then [last] else [])
  }

  // ---------------------------------------------------------------------------
  // The operations
  // ---------------------------------------------------------------------------

  /** `create_session(ip, username)` at time `now`. */
  function Create(p: Portal, ip: string, username: string, now: int, resolve: Resolver, shell: Shell): (r: (Portal, bool))
    // a refused authorisation leaves the table as it was
    ensures !r.1 ==> r.0.order == p.order && r.0.sessions == p.sessions
    // an accepted one writes this row and only this row
    ensures r.1 ==> r.0.sessions == p.sessions[ip := Session(username, now, resolve(ip))]
    ensures r.1 <==> Authorize(p.fw, ip, resolve(ip), shell).1
    // the gateway goes through `authorize_ip` whatever its outcome
    ensures r.0.fw == Authorize(p.fw, ip, resolve(ip), shell).0
    // a new row goes last; an overwritten one keeps its place
    ensures r.1 ==> r.0.order == if ip in p.sessions then p.order else p.order + [ip]
    ensures Paired(p) ==> Paired(r.0)
  {
    var mac := resolve(ip);
    var (fw, ok) := Authorize(p.fw, ip, mac, shell);
    if !ok then (p.(fw := fw), false)
    else
      var order := if ip in p.sessions then p.order else p.order + [ip];
      (Portal(order, p.sessions[ip := Session(username, now, mac)], fw), true)
  }

  /** `end_session(ip)`: remove the row and revoke with the MAC stored in it. */
  function End(p: Portal, ip: string): (r: (Portal, bool))
    ensures r.1 <==> ip in p.sessions
    // absent: nothing changes and no command is issued
    ensures !r.1 ==> r.0 == p
    // present: exactly that row goes, and the gateway is revoked once, with the stored MAC
    ensures r.0.sessions == p.sessions - {ip}
    ensures r.1 ==> r.0.fw == Revoke(p.fw, ip, p.sessions[ip].mac).0
    ensures Paired(p) ==> Paired(r.0)
    // the other rows keep their insertion order: the ended IP is cut out where it stood
    ensures r.1 && Paired(p) ==>
              exists i :: 0 <= i <= |r.0.order| && p.order == r.0.order[..i] + [ip] + r.0.order[i..]
  {
    if ip !in p.sessions then (p, false)
    else
      var mac := p.sessions[ip].mac;
      WithoutSplice(p.order, ip);
      (Portal(Without(p.order, ip), p.sessions - {ip}, Revoke(p.fw, ip, mac).0), true)
  }

  /** `end_session` for each IP in turn. */
  function EndAll(p: Portal, ips: seq<string>): Portal
    decreases |ips|
  {
    if ips == [] then p else EndAll(End(p, ips[0]).0, ips[1..])
  }

  predicate IsExpired(s: Session, now: int)
  {
    now - s.loginTime > Config.SESSION_TIMEOUT
  }

  /** The expiry sweep's test on one row. */
  function ExpiredTest(sessions: map<string, Session>, now: int): string -> bool
  {
    ip => ip in sessions && IsExpired(sessions[ip], now)
  }

  /** A stored, usable MAC and a different, usable current MAC. */
  predicate IsSpoofed(s: Session, current: Option<string>)
  {
    HasMac(s.mac) && HasMac(current) && current.value != s.mac.value
  }

  /** The spoof sweep's test on one row. */
  function SpoofedTest(sessions: map<string, Session>, resolve: Resolver): string -> bool
  {
    ip => ip in sessions && IsSpoofed(sessions[ip], resolve(ip))
  }

  /** `_cleanup_expired` at time `now`. */
  function ExpireSweep(p: Portal, now: int): Portal
  {
    EndAll(p, Filter(p.order, ExpiredTest(p.sessions, now)))
  }

  /** `_check_mac_spoofing` with the resolver as it answers now. */
  function SpoofSweep(p: Portal, resolve: Resolver): Portal
  {
    EndAll(p, Filter(p.order, SpoofedTest(p.sessions, resolve)))
  }

  /** One pass of `_monitor_loop` after its sleep. */
  function Tick(p: Portal, now: int, resolve: Resolver): Portal
  {
    SpoofSweep(ExpireSweep(p, now), resolve)
  }

  /** `stop`: end every session present. */
  function Shutdown(p: Portal): Portal
  {
    EndAll(p, p.order)
  }

  // ---------------------------------------------------------------------------
  // Properties
  // ---------------------------------------------------------------------------

  /** After a successful login the IP is authenticated under that user name. */
  lemma CreateThenAuthenticated(p: Portal, ip: string, username: string, now: int, resolve: Resolver, shell: Shell)
    requires Create(p, ip, username, now, resolve, shell).1
    ensures var q := Create(p, ip, username, now, resolve, shell).0;
            ip in q.sessions && q.sessions[ip].username == username && q.sessions[ip].loginTime == now
  {
  }

  /** An unresolvable IP that is not yet authorised cannot log in and leaves no row. */
  lemma CreateWithoutMacFails(p: Portal, ip: string, username: string, now: int, resolve: Resolver, shell: Shell)
    requires Paired(p) && ip !in p.sessions && !HasMac(resolve(ip))
    ensures var r := Create(p, ip, username, now, resolve, shell);
            !r.1 && ip !in r.0.sessions && r.0 == p
  {
  }

  /** A second `end_session` right after the first returns False and issues nothing. */
  lemma EndIdempotent(p: Portal, ip: string)
    ensures var once := End(p, ip).0;
            End(once, ip) == (once, false)
  {
  }

  /**
   * The re-login gap. An authorised IP whose MAC no longer resolves logs in
   * again: the call succeeds, the row now stores no MAC, and the gateway is
   * untouched, so it still holds the rules bound to the old MAC. A later
   * `end_session` then revokes with no MAC and issues no command at all: the
   * old MAC's accept and bypass rules are never dropped.
   */
  lemma ReloginWithoutMacKeepsOldBinding(p: Portal, ip: string, username: string, now: int, resolve: Resolver, shell: Shell)
    requires Paired(p) && ip in p.sessions && HasMac(p.sessions[ip].mac)
    requires resolve(ip) == None
    ensures var (q, ok) := Create(p, ip, username, now, resolve, shell);
            && ok
            && q.sessions[ip].mac == None && q.fw == p.fw
            && var (after, ended) := End(q, ip);
               ended && ip !in after.fw.authorized && after.fw.log == p.fw.log
  {
  }

  /** Concatenated revoke commands of the rows in `ips`, each with its stored MAC. */
  function RevokeLog(sessions: map<string, Session>, ips: seq<string>): seq<Command>
  {
    if ips == [] then []
    else
      var ip := ips[0];
      (if ip in sessions && HasMac(sessions[ip].mac) then RevokeRules(ip, sessions[ip].mac.value) else [])
      + RevokeLog(sessions, ips[1..])
  }

  lemma {:induction false} RevokeLogOthers(sessions: map<string, Session>, ips: seq<string>, x: string)
    requires x !in ips
    ensures RevokeLog(sessions - {x}, ips) == RevokeLog(sessions, ips)
    decreases |ips|
  {
    if ips != [] {
      RevokeLogOthers(sessions, ips[1..], x);
    }
  }

  /** The IPs of a list, as a set. */
  function Elems(ips: seq<string>): set<string>
  {
    set x | x in ips
  }

  lemma ElemsCons(ips: seq<string>)
    requires ips != []
    ensures Elems(ips) == {ips[0]} + Elems(ips[1..])
  {
    assert forall x :: x in ips <==> x == ips[0] || x in ips[1..];
  }

  lemma MinusStep(m: map<string, Session>, ip: string, rest: set<string>)
    ensures (m - {ip}) - rest == m - ({ip} + rest)
  {
  }

  /** `end_session` on a paired portal logs the row's revoke commands, if it has a row with a usable MAC. */
  lemma EndLog(p: Portal, ip: string)
    requires Paired(p)
    ensures End(p, ip).0.fw.log
            == p.fw.log + if ip in p.sessions && HasMac(p.sessions[ip].mac) then RevokeRules(ip, p.sessions[ip].mac.value) else []
  {
  }

  /** Ending a list of IPs removes exactly those rows and keeps the pairing. */
  lemma {:induction false} EndAllRemoves(p: Portal, ips: seq<string>)
    requires Paired(p)
    ensures var r := EndAll(p, ips);
            r.sessions == p.sessions - Elems(ips) && Paired(r)
    decreases |ips|
  {
    if ips != [] {
      var q := End(p, ips[0]).0;
      EndAllRemoves(q, ips[1..]);
      ElemsCons(ips);
      MinusStep(p.sessions, ips[0], Elems(ips[1..]));
    }
  }

  /** Ending a list of distinct IPs issues one revoke per ended row, with the MAC stored in it. */
  lemma {:induction false} EndAllRevokes(p: Portal, ips: seq<string>)
    requires Paired(p) && Distinct(ips)
    ensures EndAll(p, ips).fw.log == p.fw.log + RevokeLog(p.sessions, ips)
    decreases |ips|
  {
    if ips != [] {
      var ip, rest := ips[0], ips[1..];
      var q := End(p, ip).0;
      assert Distinct(rest) && ip !in rest;
      EndAllRevokes(q, rest);
      RevokeLogOthers(p.sessions, rest, ip);
      EndLog(p, ip);
      var first := if ip in p.sessions && HasMac(p.sessions[ip].mac) then RevokeRules(ip, p.sessions[ip].mac.value) else [];
      var later := RevokeLog(p.sessions, rest);
      assert RevokeLog(p.sessions, ips) == first + later;
      assert EndAll(p, ips).fw.log == (p.fw.log + first) + later;
      AppendAssoc(p.fw.log, first, later);
    }
  }

  /** Both halves of the effect of ending a list of distinct IPs. */
  lemma EndAllEffect(p: Portal, ips: seq<string>)
    requires Paired(p) && Distinct(ips)
    ensures var r := EndAll(p, ips);
            && r.sessions == p.sessions - Elems(ips)
            && Paired(r)
            && r.fw.log == p.fw.log + RevokeLog(p.sessions, ips)
  {
    EndAllRemoves(p, ips);
    EndAllRevokes(p, ips);
  }

  /**
   * The expiry sweep ends exactly the rows older than the timeout (strictly),
   * leaves every other row as it was, keeps the pairing, and revokes each
   * ended row once with its stored MAC.
   */
  lemma ExpireSweepEndsExactlyExpired(p: Portal, now: int)
    requires Paired(p)
    ensures var r := ExpireSweep(p, now);
            && Paired(r)
            && (forall ip :: ip in r.sessions <==> ip in p.sessions && !IsExpired(p.sessions[ip], now))
            && (forall ip :: ip in r.sessions ==> r.sessions[ip] == p.sessions[ip])
            && r.fw.log == p.fw.log + RevokeLog(p.sessions, Filter(p.order, ExpiredTest(p.sessions, now)))
  {
    EndAllEffect(p, Filter(p.order, ExpiredTest(p.sessions, now)));
  }

  /**
   * The spoof sweep ends exactly the rows whose stored MAC is usable and
   * whose current MAC is usable and different; a resolver that answers
   * nothing leaves the row alive.
   */
  lemma SpoofSweepEndsExactlySpoofed(p: Portal, resolve: Resolver)
    requires Paired(p)
    ensures var r := SpoofSweep(p, resolve);
            && Paired(r)
            && (forall ip :: ip in r.sessions <==> ip in p.sessions && !IsSpoofed(p.sessions[ip], resolve(ip)))
            && (forall ip :: ip in r.sessions ==> r.sessions[ip] == p.sessions[ip])
            && r.fw.log == p.fw.log + RevokeLog(p.sessions, Filter(p.order, SpoofedTest(p.sessions, resolve)))
  {
    EndAllEffect(p, Filter(p.order, SpoofedTest(p.sessions, resolve)));
  }

  /** A row whose MAC cannot be resolved survives the spoof sweep. */
  lemma UnresolvedSurvivesSpoofSweep(p: Portal, resolve: Resolver, ip: string)
    requires Paired(p) && ip in p.sessions && resolve(ip) == None
    ensures ip in SpoofSweep(p, resolve).sessions
  {
    SpoofSweepEndsExactlySpoofed(p, resolve);
  }

  /** A session created at `t0` is gone after one tick at any time past `t0 + SESSION_TIMEOUT`. */
  lemma NoSessionOutlivesTimeout(p: Portal, now: int, resolve: Resolver, ip: string)
    requires Paired(p) && ip in p.sessions
    requires now > p.sessions[ip].loginTime + Config.SESSION_TIMEOUT
    ensures ip !in Tick(p, now, resolve).sessions && ip !in Tick(p, now, resolve).fw.authorized
  {
    ExpireSweepEndsExactlyExpired(p, now);
    SpoofSweepEndsExactlySpoofed(ExpireSweep(p, now), resolve);
  }

  lemma HeadIsMember(s: seq<string>)
    requires s != []
    ensures s[0] in s
  {
  }

  lemma NoMemberEmpty(s: seq<string>)
    requires forall x :: x !in s
    ensures s == []
  {
    if s != [] {
      HeadIsMember(s);
      assert false;
    }
  }

  /** `stop` leaves no row and nothing authorised, with one revoke per row. */
  lemma ShutdownEndsAll(p: Portal)
    requires Paired(p)
    ensures var r := Shutdown(p);
            r.sessions == map[] && r.order == [] && r.fw.authorized == {}
            && r.fw.log == p.fw.log + RevokeLog(p.sessions, p.order)
  {
    EndAllEffect(p, p.order);
    var r := Shutdown(p);
    assert r.sessions.Keys == {};
    NoMemberEmpty(r.order);
  }

  // ---------------------------------------------------------------------------
  // The manager object
  // ---------------------------------------------------------------------------

  class SessionManager {
    const firewall: FirewallManager
    var order: seq<string>
    var sessions: map<string, Session>
    var running: bool

    /** The state this object and its gateway stand for. */
    function Model(): Portal
      reads this, firewall
    {
      Portal(order, sessions, firewall.State())
    }

    constructor (firewall: FirewallManager)
      ensures this.firewall == firewall && running
      ensures order == [] && sessions == map[]
    {
      this.firewall := firewall;
      order := [];
      sessions := map[];
      running := true;
    }

    /** `is_authenticated`. */
    function IsAuthenticated(ip: string): (r: bool)
      reads this, firewall
      // while the table and the gateway are paired, authenticated means authorised at the gateway
      ensures Paired(Model()) ==> (r <==> ip in firewall.authorizedIps)
    {
      ip in sessions
    }

    /** `get_session`. */
    function GetSession(ip: string): (r: Option<Session>)
      reads this, firewall
      ensures r.Some? <==> IsAuthenticated(ip)
      ensures r.Some? ==> r.value == sessions[ip]
    {
      if ip in sessions then Some(sessions[ip]) else None
    }

    method CreateSession(ip: string, username: string, now: int, resolve: Resolver, shell: Shell) returns (ok: bool)
      modifies this, firewall
      ensures (Model(), ok) == Create(old(Model()), ip, username, now, resolve, shell)
      ensures running == old(running)
      // a successful login is visible to `is_authenticated` and `get_session`
      ensures ok ==> IsAuthenticated(ip) && GetSession(ip) == Some(Session(username, now, resolve(ip)))
    {
      var mac := resolve(ip);
      var authorized := firewall.AuthorizeIp(ip, mac, shell);
      if !authorized {
        return false;
      }
      if ip !in sessions {
        order := order + [ip];
      }
      sessions := sessions[ip := Session(username, now, mac)];
      ok := true;
    }

    method EndSession(ip: string, shell: Shell) returns (ended: bool)
      modifies this, firewall
      ensures (Model(), ended) == End(old(Model()), ip)
      ensures running == old(running)
    {
      if ip !in sessions {
        return false;
      }
      var mac := sessions[ip].mac;
      order := Without(order, ip);
      sessions := sessions - {ip};
      var ignored := firewall.RevokeIp(ip, mac, shell);
      ended := true;
    }

    /** The row loop of both sweeps: the IPs of the order that pass `keep`. */
    method Collect(keep: string -> bool) returns (picked: seq<string>)
      ensures picked == Filter(order, keep)
    {
      picked := [];
      var i := 0;
      while i < |order|
        invariant 0 <= i <= |order|
        invariant picked == Filter(order[..i], keep)
      {
        assert order[..i + 1][..i] == order[..i];
        if keep(order[i]) {
          picked := picked + [order[i]];
        }
        i := i + 1;
      }
      assert order[..|order|] == order;
    }

    /** `end_session` for each IP, in order. */
    method EndEach(ips: seq<string>, shell: Shell)
      modifies this, firewall
      ensures Model() == EndAll(old(Model()), ips)
      ensures running == old(running)
    {
      var j := 0;
      while j < |ips|
        invariant 0 <= j <= |ips|
        invariant EndAll(Model(), ips[j..]) == EndAll(old(Model()), ips)
        invariant running == old(running)
      {
        assert ips[j..][1..] == ips[j + 1..];
        var ignored := EndSession(ips[j], shell);
        j := j + 1;
      }
    }

    method CleanupExpired(now: int, shell: Shell)
      modifies this, firewall
      ensures Model() == ExpireSweep(old(Model()), now)
      ensures running == old(running)
    {
      var expired := Collect(ExpiredTest(sessions, now));
      EndEach(expired, shell);
    }

    method CheckMacSpoofing(resolve: Resolver, shell: Shell)
      modifies this, firewall
      ensures Model() == SpoofSweep(old(Model()), resolve)
      ensures running == old(running)
    {
      var spoofed := Collect(SpoofedTest(sessions, resolve));
      EndEach(spoofed, shell);
    }

    /** One iteration of `_monitor_loop` once its sleep is over. */
    method MonitorTick(now: int, resolve: Resolver, shell: Shell)
      modifies this, firewall
      ensures Model() == Tick(old(Model()), now, resolve)
      ensures running == old(running)
    {
      CleanupExpired(now, shell);
      CheckMacSpoofing(resolve, shell);
    }

    method Stop(shell: Shell)
      modifies this, firewall
      ensures Model() == Shutdown(old(Model()))
      ensures !running
    {
      running := false;
      var ips := order;
      EndEach(ips, shell);
    }
  }
}
