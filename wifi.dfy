/**
 * The hotspot side of the portal (src/wifi/manager.py): the hostapd and
 * dnsmasq configuration files it writes, the reading of `iw ... scan` output
 * into a list of networks, and the reading of `iw ... station dump` and
 * /proc/net/arp into the list of connected clients.
 *
 * Commands are not run here: their success flag and their output are
 * parameters, and writing a configuration file is modelled by the text that
 * would be written.
 */
module Wifi {
  import opened Common
  import opened Text
  import Config

  // ---------------------------------------------------------------------------
  // Configuration files
  // ---------------------------------------------------------------------------

  /** One line of a configuration file: a bare word or comment, or `key=value`. */
  datatype ConfLine = Bare(text: string) | Set(key: string, value: string)

  function Show(l: ConfLine): string
  {
    match l
    case Bare(t) => t
    case Set(k, v) => k + "=" + v
  }

  function ShowAll(ls: seq<ConfLine>): (r: seq<string>)
    ensures |r| == |ls| && forall i :: 0 <= i < |ls| ==> r[i] == Show(ls[i])
  {
    if ls == [] then [] else [Show(ls[0])] + ShowAll(ls[1..])
  }

  /** The text of a file holding these lines, each one ended by a newline. */
  function Render(ls: seq<ConfLine>): string
  {
    Join(ShowAll(ls) + [""], "\n")
  }

  /** Text with neither `=` nor a line break. */
  predicate Plain(s: string)
  {
    forall i :: 0 <= i < |s| ==> s[i] != '=' && s[i] != '\n'
  }

  /** A line that reads back as written: no newline inside, no `=` in a key or a bare line. */
  predicate WellFormed(l: ConfLine)
  {
    match l
    case Bare(t) => Plain(t)
    case Set(k, v) => Plain(k) && Free(v, '\n')
  }

  predicate AllWellFormed(ls: seq<ConfLine>)
  {
    forall i :: 0 <= i < |ls| ==> WellFormed(ls[i])
  }

  /** The values a reader of `key=value` lines finds for `key`, in file order. */
  function ValuesIn(lines: seq<string>, key: string): seq<string>
  {
    if lines == [] then []
    else (if StartsWith(lines[0], key + "=") then [lines[0][|key| + 1..]] else []) + ValuesIn(lines[1..], key)
  }

  function Values(text: string, key: string): seq<string>
  {
    ValuesIn(Split(text, "\n"), key)
  }

  /** The values the lines give `key`, in order. */
  function Settings(ls: seq<ConfLine>, key: string): seq<string>
  {
    if ls == [] then []
    else (if ls[0].Set? && ls[0].key == key then [ls[0].value] else []) + Settings(ls[1..], key)
  }

  predicate Sets(l: ConfLine, key: string)
  {
    l.Set? && l.key == key
  }

  lemma {:induction false} SettingsConcat(a: seq<ConfLine>, b: seq<ConfLine>, key: string)
    ensures Settings(a + b, key) == Settings(a, key) + Settings(b, key)
    decreases |a|
  {
    if a == [] {
      assert a + b == b;
    } else {
      assert (a + b)[0] == a[0];
      assert (a + b)[1..] == a[1..] + b;
      SettingsConcat(a[1..], b, key);
    }
  }

  lemma {:induction false} SettingsNone(ls: seq<ConfLine>, key: string)
    requires forall i :: 0 <= i < |ls| ==> !Sets(ls[i], key)
    ensures Settings(ls, key) == []
    decreases |ls|
  {
    if ls != [] {
      assert !Sets(ls[0], key);
      assert forall i :: 0 <= i < |ls| - 1 ==> ls[1..][i] == ls[i + 1];
      SettingsNone(ls[1..], key);
    }
  }

  /** A key set on one line only has that line's value. */
  lemma SettingsOne(ls: seq<ConfLine>, key: string, i: nat)
    requires i < |ls| && Sets(ls[i], key)
    requires forall j :: 0 <= j < |ls| && j != i ==> !Sets(ls[j], key)
    ensures Settings(ls, key) == [ls[i].value]
  {
    var before, rest := ls[..i], ls[i + 1..];
    assert ls == before + ([ls[i]] + rest);
    assert forall j :: 0 <= j < |before| ==> before[j] == ls[j];
    assert forall j :: 0 <= j < |rest| ==> rest[j] == ls[i + 1 + j];
    SettingsNone(before, key);
    SettingsNone(rest, key);
    SettingsConcat(before, [ls[i]] + rest, key);
    assert ([ls[i]] + rest)[1..] == rest;
  }

  /** A shown line starts with `key=` exactly when it sets `key`, and what follows is its value. */
  lemma ShowMatches(l: ConfLine, key: string)
    requires WellFormed(l) && Free(key, '=')
    ensures StartsWith(Show(l), key + "=") <==> l.Set? && l.key == key
    ensures l.Set? && l.key == key ==> Show(l)[|key| + 1..] == l.value
  {
    var p := key + "=";
    var line := Show(l);
    match l
    case Bare(t) =>
      if |key| < |t| {
        NotStartsWith(t, p, |key|);
      }
    case Set(k, v) =>
      assert line == k + "=" + v;
      assert line[|k|] == '=';
      if k == key {
        assert line[..|p|] == p;
      } else if |k| < |key| {
        NotStartsWith(line, p, |k|);
      } else if |k| > |key| {
        assert line[|key|] == k[|key|];
        NotStartsWith(line, p, |key|);
      } else {
        var i :| 0 <= i < |k| && k[i] != key[i];
        assert line[i] == k[i];
        NotStartsWith(line, p, i);
      }
  }

  lemma {:induction false} ShownValues(ls: seq<ConfLine>, key: string)
    requires AllWellFormed(ls) && Free(key, '=')
    ensures ValuesIn(ShowAll(ls) + [""], key) == Settings(ls, key)
    decreases |ls|
  {
    if ls == [] {
      assert ValuesIn([""], key) == [];
    } else {
      ShowMatches(ls[0], key);
      assert AllWellFormed(ls[1..]) by {
        forall i | 0 <= i < |ls| - 1
          ensures WellFormed(ls[1..][i])
        {
          assert ls[1..][i] == ls[i + 1];
        }
      }
      ShownValues(ls[1..], key);
      assert (ShowAll(ls) + [""])[1..] == ShowAll(ls[1..]) + [""];
    }
  }

  /** Reading a rendered file gives back, for every key, the values the lines set. */
  lemma RenderReadsBack(ls: seq<ConfLine>, key: string)
    requires AllWellFormed(ls) && Free(key, '=')
    ensures Values(Render(ls), key) == Settings(ls, key)
  {
    var lines := ShowAll(ls) + [""];
    forall k | 0 <= k < |lines|
      ensures Free(lines[k], '\n')
    {
      if k < |ls| {
        assert WellFormed(ls[k]);
        if ls[k].Set? {
          assert Show(ls[k]) == ls[k].key + "=" + ls[k].value;
        }
      }
    }
    JoinSplit(lines, "\n");
    ShownValues(ls, key);
  }

  /** The hotspot's settings. */
  datatype Hotspot = Hotspot(interface: string, ssid: string, password: string, channel: string)

  /** WPA2 needs a passphrase of at least 8 characters; a shorter one gives an open network. */
  predicate Secured(h: Hotspot)
  {
    |h.password| >= 8
  }

  function HostapdHeader(h: Hotspot): seq<ConfLine>
  {
    if Secured(h) then [Bare("# NetGuard Hotspot Configuration")]
    else [Bare("# NetGuard Hotspot Configuration (Open Network)")]
  }

  /** The lines both kinds of network share. */
  function RadioLines(h: Hotspot): seq<ConfLine>
  {
    [Set("interface", h.interface), Set("driver", "nl80211"), Set("ssid", h.ssid),
     Set("hw_mode", "g"), Set("channel", h.channel), Set("wmm_enabled", "0"),
     Set("macaddr_acl", "0"), Set("auth_algs", "1"), Set("ignore_broadcast_ssid", "0")]
  }

  function WpaLines(h: Hotspot): seq<ConfLine>
  {
    [Set("wpa", "2"), Set("wpa_passphrase", h.password), Set("wpa_key_mgmt", "WPA-PSK"),
     Set("wpa_pairwise", "TKIP"), Set("rsn_pairwise", "CCMP")]
  }

  function HostapdLines(h: Hotspot): seq<ConfLine>
  {
    HostapdHeader(h) + RadioLines(h) + (if Secured(h) then WpaLines(h) else [])
  }

  /** `create_hostapd_config()`: the text written to the hostapd configuration file. */
  function HostapdConfig(h: Hotspot): string
  {
    Render(HostapdLines(h))
  }

  /** Settings that fit on one line each. */
  predicate OneLine(h: Hotspot)
  {
    Free(h.interface, '\n') && Free(h.ssid, '\n') && Free(h.password, '\n') && Free(h.channel, '\n')
  }

  lemma AllWellFormedConcat(a: seq<ConfLine>, b: seq<ConfLine>)
    requires AllWellFormed(a) && AllWellFormed(b)
    ensures AllWellFormed(a + b)
  {
    forall i | 0 <= i < |a + b|
      ensures WellFormed((a + b)[i])
    {
      if i >= |a| {
        assert (a + b)[i] == b[i - |a|];
      }
    }
  }

  /** A long literal is checked a piece at a time. */
  lemma PlainText(a: string, b: string, c: string)
    requires Plain(a) && Plain(b) && Plain(c)
    ensures WellFormed(Bare(a + b + c))
  {
    assert forall i :: 0 <= i < |a + b| ==> (a + b)[i] == (if i < |a| then a[i] else b[i - |a|]);
    var ab := a + b;
    assert forall i :: 0 <= i < |ab + c| ==> (ab + c)[i] == (if i < |ab| then ab[i] else c[i - |ab|]);
  }

  lemma CommentsWellFormed()
    ensures WellFormed(Bare("# NetGuard Hotspot Configuration"))
    ensures WellFormed(Bare("# NetGuard Hotspot Configuration (Open Network)"))
    ensures WellFormed(Bare("# NetGuard WiFi DHCP Configuration"))
  {
    SecuredComment();
    OpenComment();
    DhcpComment();
  }

  lemma SecuredComment()
    ensures WellFormed(Bare("# NetGuard Hotspot Configuration"))
  {
    var a, b, c := "# NetGuard ", "Hotspot ", "Configuration";
    assert a + b + c == "# NetGuard Hotspot Configuration";
    PlainText(a, b, c);
  }

  lemma OpenComment()
    ensures WellFormed(Bare("# NetGuard Hotspot Configuration (Open Network)"))
  {
    var a, b, c := "# NetGuard Hotspot ", "Configuration", " (Open Network)";
    assert a + b + c == "# NetGuard Hotspot Configuration (Open Network)";
    PlainText(a, b, c);
  }

  lemma DhcpComment()
    ensures WellFormed(Bare("# NetGuard WiFi DHCP Configuration"))
  {
    var a, b, c := "# NetGuard ", "WiFi DHCP ", "Configuration";
    assert a + b + c == "# NetGuard WiFi DHCP Configuration";
    PlainText(a, b, c);
  }

  lemma HostapdWellFormed(h: Hotspot)
    requires OneLine(h)
    ensures AllWellFormed(HostapdLines(h))
  {
    var head, radio, wpa := HostapdHeader(h), RadioLines(h), WpaLines(h);
    CommentsWellFormed();
    assert AllWellFormed(head);
    RadioWellFormed(h);
    WpaWellFormed(h);
    assert AllWellFormed([]);
    AllWellFormedConcat(head, radio);
    AllWellFormedConcat(head + radio, if Secured(h) then wpa else []);
  }

  lemma RadioWellFormed(h: Hotspot)
    requires OneLine(h)
    ensures AllWellFormed(RadioLines(h))
  {
    RadioKeys(h.interface, h.ssid, h.channel);
  }

  lemma RadioKeys(interface: string, ssid: string, channel: string)
    requires Free(interface, '\n') && Free(ssid, '\n') && Free(channel, '\n')
    ensures WellFormed(Set("interface", interface)) && WellFormed(Set("driver", "nl80211"))
    ensures WellFormed(Set("ssid", ssid)) && WellFormed(Set("hw_mode", "g"))
    ensures WellFormed(Set("channel", channel)) && WellFormed(Set("wmm_enabled", "0"))
    ensures WellFormed(Set("macaddr_acl", "0")) && WellFormed(Set("auth_algs", "1"))
    ensures WellFormed(Set("ignore_broadcast_ssid", "0"))
  {
    NameKeys();
    assert Plain("hw_mode") && Plain("channel") && Plain("wmm_enabled");
    assert Plain("macaddr_acl") && Plain("auth_algs") && Plain("ignore_broadcast_ssid");
  }

  lemma NameKeys()
    ensures Plain("interface") && Plain("driver") && Plain("ssid")
  {
  }

  lemma WpaKeys()
    ensures Plain("wpa") && Plain("wpa_passphrase") && Plain("wpa_key_mgmt")
    ensures Plain("wpa_pairwise") && Plain("rsn_pairwise")
  {
  }

  lemma WpaWellFormed(h: Hotspot)
    requires OneLine(h)
    ensures AllWellFormed(WpaLines(h))
  {
    var wpa := WpaLines(h);
    WpaKeys();
    assert WellFormed(wpa[0]) && WellFormed(wpa[1]) && WellFormed(wpa[2]);
    assert WellFormed(wpa[3]) && WellFormed(wpa[4]);
  }

  /** What the hostapd file gives a key: the header's, the radio lines', then the WPA lines' values. */
  lemma HostapdSettings(h: Hotspot, key: string)
    requires OneLine(h) && Free(key, '=')
    ensures Values(HostapdConfig(h), key)
            == Settings(HostapdHeader(h), key) + Settings(RadioLines(h), key)
               + (if Secured(h) then Settings(WpaLines(h), key) else [])
  {
    HostapdWellFormed(h);
    RenderReadsBack(HostapdLines(h), key);
    SettingsConcat(HostapdHeader(h), RadioLines(h), key);
    SettingsConcat(HostapdHeader(h) + RadioLines(h), if Secured(h) then WpaLines(h) else [], key);
    assert Settings([], key) == [];
  }

  lemma HeaderSetsNothing(h: Hotspot, key: string)
    ensures Settings(HostapdHeader(h), key) == []
  {
    SettingsNone(HostapdHeader(h), key);
  }

  lemma RadioSecurity(h: Hotspot)
    ensures Settings(RadioLines(h), "wpa") == []
    ensures Settings(RadioLines(h), "wpa_passphrase") == []
    ensures Settings(RadioLines(h), "rsn_pairwise") == []
  {
    SettingsNone(RadioLines(h), "wpa");
    SettingsNone(RadioLines(h), "wpa_passphrase");
    SettingsNone(RadioLines(h), "rsn_pairwise");
  }

  lemma WpaSecurity(h: Hotspot)
    ensures Settings(WpaLines(h), "wpa") == ["2"]
    ensures Settings(WpaLines(h), "wpa_passphrase") == [h.password]
    ensures Settings(WpaLines(h), "rsn_pairwise") == ["CCMP"]
  {
    SettingsOne(WpaLines(h), "wpa", 0);
    SettingsOne(WpaLines(h), "wpa_passphrase", 1);
    SettingsOne(WpaLines(h), "rsn_pairwise", 4);
  }

  /**
   * The hostapd file turns WPA2 on, with the given passphrase, exactly when the
   * password has at least 8 characters; an open network has no WPA setting at all.
   */
  lemma HostapdSecurity(h: Hotspot)
    requires OneLine(h)
    ensures Values(HostapdConfig(h), "wpa") == (if Secured(h) then ["2"] else [])
    ensures Values(HostapdConfig(h), "wpa_passphrase") == (if Secured(h) then [h.password] else [])
    ensures Values(HostapdConfig(h), "rsn_pairwise") == (if Secured(h) then ["CCMP"] else [])
  {
    HostapdSecurityKey(h, "wpa", "2");
    HostapdSecurityKey(h, "wpa_passphrase", h.password);
    HostapdSecurityKey(h, "rsn_pairwise", "CCMP");
  }

  lemma HostapdSecurityKey(h: Hotspot, key: string, value: string)
    requires OneLine(h)
    requires || (key == "wpa" && value == "2")
             || (key == "wpa_passphrase" && value == h.password)
             || (key == "rsn_pairwise" && value == "CCMP")
    ensures Values(HostapdConfig(h), key) == (if Secured(h) then [value] else [])
  {
    WpaKeys();
    HostapdSettings(h, key);
    HeaderSetsNothing(h, key);
    RadioSecurity(h);
    WpaSecurity(h);
  }


  lemma RadioNetwork(h: Hotspot)
    ensures Settings(RadioLines(h), "interface") == [h.interface]
    ensures Settings(RadioLines(h), "ssid") == [h.ssid]
    ensures Settings(RadioLines(h), "channel") == [h.channel]
  {
    SettingsOne(RadioLines(h), "interface", 0);
    SettingsOne(RadioLines(h), "ssid", 2);
    SettingsOne(RadioLines(h), "channel", 4);
  }

  lemma WpaNetwork(h: Hotspot)
    ensures Settings(WpaLines(h), "interface") == []
    ensures Settings(WpaLines(h), "ssid") == []
    ensures Settings(WpaLines(h), "channel") == []
  {
    SettingsNone(WpaLines(h), "interface");
    SettingsNone(WpaLines(h), "ssid");
    SettingsNone(WpaLines(h), "channel");
  }

  /** Either way the file names the interface, the SSID and the channel once each. */
  lemma HostapdNetwork(h: Hotspot)
    requires OneLine(h)
    ensures Values(HostapdConfig(h), "interface") == [h.interface]
    ensures Values(HostapdConfig(h), "ssid") == [h.ssid]
    ensures Values(HostapdConfig(h), "channel") == [h.channel]
  {
    HostapdNetworkKey(h, "interface", h.interface);
    HostapdNetworkKey(h, "ssid", h.ssid);
    HostapdNetworkKey(h, "channel", h.channel);
  }

  lemma HostapdNetworkKey(h: Hotspot, key: string, value: string)
    requires OneLine(h)
    requires || (key == "interface" && value == h.interface)
             || (key == "ssid" && value == h.ssid)
             || (key == "channel" && value == h.channel)
    ensures Values(HostapdConfig(h), key) == [value]
  {
    NameKeys();
    HostapdSettings(h, key);
    HeaderSetsNothing(h, key);
    RadioNetwork(h);
    WpaNetwork(h);
  }


  /** `PORTAL_IP.rsplit('.', 1)[0]`: the portal's network without its last octet. */
  function NetworkBase(): string
  {
    RSplitHead(Config.PORTAL_IP, '.')
  }

  lemma NetworkBaseValue()
    ensures NetworkBase() == "192.168.1"
  {
    var s := Config.PORTAL_IP;
    var r := NetworkBase();
    assert s == "192.168.1.1";
    assert s[9] == '.' && s[10] == '1';
    assert !Free(s, '.');
    assert |r| < |s| && s[|r|] == '.' && Free(s[|r| + 1..], '.');
    assert |r| == 9;
  }

  /** The interface dnsmasq serves, with its own DNS service turned off. */
  function DhcpHead(interface: string): seq<ConfLine>
  {
    [Bare("# NetGuard WiFi DHCP Configuration"), Set("interface", interface),
     Bare("bind-interfaces"), Set("port", "0")]
  }

  /** The leases and the options that point clients at the portal. */
  function DhcpLeases(): seq<ConfLine>
  {
    var base := NetworkBase();
    [Set("dhcp-range", base + ".100," + base + ".200,12h"),
     Set("dhcp-option", "option:router," + Config.PORTAL_IP),
     Set("dhcp-option", "option:dns-server," + Config.PORTAL_IP)]
  }

  function DhcpTail(): seq<ConfLine>
  {
    [Bare("dhcp-authoritative"), Bare("log-queries"), Bare("log-dhcp")]
  }

  function DnsmasqLines(interface: string): seq<ConfLine>
  {
    DhcpHead(interface) + DhcpLeases() + DhcpTail()
  }

  /** `create_dnsmasq_config()`: the text written to the dnsmasq configuration file. */
  function DnsmasqConfig(interface: string): string
  {
    Render(DnsmasqLines(interface))
  }

  lemma DnsmasqWellFormed(interface: string)
    requires Free(interface, '\n')
    ensures AllWellFormed(DnsmasqLines(interface))
  {
    var head, leases, tail := DhcpHead(interface), DhcpLeases(), DhcpTail();
    DhcpHeadWellFormed(interface);
    DhcpLeasesWellFormed();
    assert WellFormed(tail[0]) && WellFormed(tail[1]) && WellFormed(tail[2]);
    assert AllWellFormed(tail);
    AllWellFormedConcat(head, leases);
    AllWellFormedConcat(head + leases, tail);
  }

  lemma DhcpHeadWellFormed(interface: string)
    requires Free(interface, '\n')
    ensures AllWellFormed(DhcpHead(interface))
  {
    var head := DhcpHead(interface);
    CommentsWellFormed();
    assert WellFormed(head[1]) && WellFormed(head[2]) && WellFormed(head[3]);
  }

  lemma DhcpLeasesWellFormed()
    ensures AllWellFormed(DhcpLeases())
  {
    var leases := DhcpLeases();
    NetworkBaseValue();
    var base := NetworkBase();
    assert Free(base, '\n') && Free(Config.PORTAL_IP, '\n');
    FreeConcat(base + ".100,", base, '\n');
    FreeConcat(base + ".100," + base, ".200,12h", '\n');
    FreeConcat("option:router,", Config.PORTAL_IP, '\n');
    FreeConcat("option:dns-server,", Config.PORTAL_IP, '\n');
    assert WellFormed(leases[0]) && WellFormed(leases[1]) && WellFormed(leases[2]);
  }

  lemma DnsmasqGroups(interface: string, key: string)
    requires Free(interface, '\n') && Free(key, '=')
    ensures Values(DnsmasqConfig(interface), key)
            == Settings(DhcpHead(interface), key) + Settings(DhcpLeases(), key) + Settings(DhcpTail(), key)
  {
    DnsmasqWellFormed(interface);
    RenderReadsBack(DnsmasqLines(interface), key);
    SettingsConcat(DhcpHead(interface), DhcpLeases(), key);
    SettingsConcat(DhcpHead(interface) + DhcpLeases(), DhcpTail(), key);
  }

  lemma DhcpHeadSettings(interface: string)
    ensures Settings(DhcpHead(interface), "dhcp-range") == []
    ensures Settings(DhcpHead(interface), "dhcp-option") == []
    ensures Settings(DhcpHead(interface), "port") == ["0"]
    ensures Settings(DhcpHead(interface), "interface") == [interface]
  {
    SettingsNone(DhcpHead(interface), "dhcp-range");
    SettingsNone(DhcpHead(interface), "dhcp-option");
    SettingsOne(DhcpHead(interface), "port", 3);
    SettingsOne(DhcpHead(interface), "interface", 1);
  }

  lemma DhcpRangeSetting()
    ensures Settings(DhcpLeases(), "dhcp-range") == ["192.168.1.100,192.168.1.200,12h"]
  {
    var ls := DhcpLeases();
    NetworkBaseValue();
    var low, high := "192.168.1" + ".100,", "192.168.1" + ".200,12h";
    assert low == "192.168.1.100,";
    assert high == "192.168.1.200,12h";
    assert ls[0].value == low + high;
    assert low + high == "192.168.1.100,192.168.1.200,12h";
    SettingsOne(ls, "dhcp-range", 0);
  }

  lemma DhcpOptionSetting()
    ensures Settings(DhcpLeases(), "dhcp-option") == ["option:router,192.168.1.1", "option:dns-server,192.168.1.1"]
  {
    var ls := DhcpLeases();
    var router, dns := "option:router," + Config.PORTAL_IP, "option:dns-server," + Config.PORTAL_IP;
    assert router == "option:router,192.168.1.1";
    assert dns == "option:dns-server,192.168.1.1";
    var first, second := ls[..2], ls[2..];
    assert ls == first + second;
    assert first[1] == Set("dhcp-option", router);
    assert second[0] == Set("dhcp-option", dns);
    SettingsConcat(first, second, "dhcp-option");
    SettingsOne(first, "dhcp-option", 1);
    SettingsOne(second, "dhcp-option", 0);
  }

  lemma DhcpLeasesOnly(key: string)
    requires key != "dhcp-range" && key != "dhcp-option"
    ensures Settings(DhcpLeases(), key) == []
  {
    SettingsNone(DhcpLeases(), key);
  }

  lemma DhcpTailSettings(key: string)
    ensures Settings(DhcpTail(), key) == []
  {
    SettingsNone(DhcpTail(), key);
  }

  /** dnsmasq leases 192.168.1.100 to 192.168.1.200 for 12 hours. */
  lemma DnsmasqRange(interface: string)
    requires Free(interface, '\n')
    ensures Values(DnsmasqConfig(interface), "dhcp-range") == ["192.168.1.100,192.168.1.200,12h"]
  {
    DnsmasqGroups(interface, "dhcp-range");
    DhcpHeadSettings(interface);
    DhcpRangeSetting();
    DhcpTailSettings("dhcp-range");
  }

  /** dnsmasq names the portal as the clients' router and DNS server. */
  lemma DnsmasqOptions(interface: string)
    requires Free(interface, '\n')
    ensures Values(DnsmasqConfig(interface), "dhcp-option")
            == ["option:router,192.168.1.1", "option:dns-server,192.168.1.1"]
  {
    DnsmasqGroups(interface, "dhcp-option");
    DhcpHeadSettings(interface);
    DhcpOptionSetting();
    DhcpTailSettings("dhcp-option");
  }

  /** dnsmasq runs no DNS service of its own (port 0): the portal's responder answers instead. */
  lemma DnsmasqPort(interface: string)
    requires Free(interface, '\n')
    ensures Values(DnsmasqConfig(interface), "port") == ["0"]
  {
    DnsmasqGroups(interface, "port");
    DhcpHeadSettings(interface);
    DhcpLeasesOnly("port");
    DhcpTailSettings("port");
  }

  /** dnsmasq serves the hotspot's interface. */
  lemma DnsmasqInterface(interface: string)
    requires Free(interface, '\n')
    ensures Values(DnsmasqConfig(interface), "interface") == [interface]
  {
    DnsmasqGroups(interface, "interface");
    DhcpHeadSettings(interface);
    DhcpLeasesOnly("interface");
    DhcpTailSettings("interface");
  }

  // ---------------------------------------------------------------------------
  // Reading `iw dev <interface> scan` (WiFiClient.scan_networks)
  // ---------------------------------------------------------------------------

  /** One scanned network; a field the output never gave is `None`. */
  datatype Network = Network(bssid: Option<string>, ssid: Option<string>, signal: Option<string>, encrypted: Option<bool>)

  const NO_NETWORK := Network(None, None, None, None)

  /** A record with at least one field: a non-empty dict, which Python counts as true. */
  predicate HasFields(n: Network)
  {
    n != NO_NETWORK
  }

  /** What one line of scan output means to the parser. */
  datatype LineKind =
    | BssLine(bssid: string)
    | SsidLine(ssid: string)
    | SignalLine(signal: string)
    | CapabilityLine(privacy: bool)
    | OtherLine

  /** The second token of a stripped `BSS` line with its parentheses removed. */
  function Bssid(line: string): (r: string)
    requires StartsWith(line, "BSS ") && !IsSpace(line[|line| - 1])
    ensures Free(r, '(') && Free(r, ')')
  {
    BssWords(line);
    var open := RemoveChar(Words(line)[1], '(');
    RemoveCharKeeps(open, ')', '(');
    RemoveChar(open, ')')
  }

  /** The line's kind, tested in the parser's order on the stripped line. */
  function Classify(raw: string): LineKind
  {
    var line := Strip(raw);
    if StartsWith(line, "BSS ") then
      StripEnds(raw);
      BssLine(Bssid(line))
    else if Contains(line, "SSID:") then SsidLine(Strip(After(line, "SSID:")))
    else if Contains(line, "signal:") then SignalLine(Strip(After(line, "signal:")))
    else if Contains(line, "capability:") then CapabilityLine(Contains(line, "Privacy"))
    else OtherLine
  }

  /**
   * A stripped line starting "BSS " always has a second token, which gives the
   * bssid once every '(' and then every ')' is removed from it; otherwise the SSID marker is looked for first,
   * then the signal marker, then the capability marker. The SSID and the signal
   * are the stripped text after the first occurrence of their marker, and a
   * capability line records whether "Privacy" occurs in it.
   */
  lemma ClassifyLine(raw: string)
    ensures var line := Strip(raw);
            var k := Classify(raw);
            && (k.BssLine? <==> StartsWith(line, "BSS "))
            && (k.BssLine? ==> && |Words(line)| >= 2 && Words(line)[0] == "BSS"
                               && k.bssid == RemoveChar(RemoveChar(Words(line)[1], '('), ')')
                               && Free(k.bssid, '(') && Free(k.bssid, ')')
                               && (Free(Words(line)[1], '(') && Free(Words(line)[1], ')') ==> k.bssid == Words(line)[1]))
            && (k.SsidLine? <==> !StartsWith(line, "BSS ") && Contains(line, "SSID:"))
            && (k.SsidLine? ==> exists j :: && MatchAt(line, "SSID:", j)
                                          && (forall i :: 0 <= i < j ==> !MatchAt(line, "SSID:", i))
                                          && k.ssid == Strip(line[j + 5..]))
            && (k.SignalLine? <==> !StartsWith(line, "BSS ") && !Contains(line, "SSID:") && Contains(line, "signal:"))
            && (k.SignalLine? ==> exists j :: && MatchAt(line, "signal:", j)
                                            && (forall i :: 0 <= i < j ==> !MatchAt(line, "signal:", i))
                                            && k.signal == Strip(line[j + 7..]))
            && (k.CapabilityLine? <==> && !StartsWith(line, "BSS ") && !Contains(line, "SSID:")
                                       && !Contains(line, "signal:") && Contains(line, "capability:"))
            && (k.CapabilityLine? ==> (k.privacy <==> Contains(line, "Privacy")))
  {
    ClassifyBss(raw);
    ClassifySsid(raw);
    ClassifySignal(raw);
    ClassifyCapability(raw);
  }

  lemma ClassifyBss(raw: string)
    ensures var line := Strip(raw);
            var k := Classify(raw);
            && (k.BssLine? <==> StartsWith(line, "BSS "))
            && (k.BssLine? ==> && |Words(line)| >= 2 && Words(line)[0] == "BSS"
                               && k.bssid == RemoveChar(RemoveChar(Words(line)[1], '('), ')')
                               && Free(k.bssid, '(') && Free(k.bssid, ')')
                               && (Free(Words(line)[1], '(') && Free(Words(line)[1], ')') ==> k.bssid == Words(line)[1]))
  {
    if StartsWith(Strip(raw), "BSS ") {
      SecondWord(raw);
    }
  }

  /**
   * Removing the parentheses keeps every other character of the token: for a
   * token `<mac>(on`, as in a line `BSS <mac>(on <interface>)`, the bssid is
   * `<mac>on`.
   */
  lemma BssidKeepsOn(mac: string)
    requires Free(mac, '(') && Free(mac, ')')
    ensures RemoveChar(RemoveChar(mac + "(on", '('), ')') == mac + "on"
  {
    var on := "on";
    assert Free(on, '(') && Free(on, ')');
    assert mac + "(on" == mac + ['('] + on;
    RemoveBetween(mac, on, '(');
    FreeConcat(mac, on, ')');
  }

  lemma ClassifySsid(raw: string)
    ensures var line := Strip(raw);
            var k := Classify(raw);
            && (k.SsidLine? <==> !StartsWith(line, "BSS ") && Contains(line, "SSID:"))
            && (k.SsidLine? ==> exists j :: && MatchAt(line, "SSID:", j)
                                          && (forall i :: 0 <= i < j ==> !MatchAt(line, "SSID:", i))
                                          && k.ssid == Strip(line[j + 5..]))
  {
  }

  lemma ClassifySignal(raw: string)
    ensures var line := Strip(raw);
            var k := Classify(raw);
            && (k.SignalLine? <==> !StartsWith(line, "BSS ") && !Contains(line, "SSID:") && Contains(line, "signal:"))
            && (k.SignalLine? ==> exists j :: && MatchAt(line, "signal:", j)
                                            && (forall i :: 0 <= i < j ==> !MatchAt(line, "signal:", i))
                                            && k.signal == Strip(line[j + 7..]))
  {
  }

  lemma ClassifyCapability(raw: string)
    ensures var line := Strip(raw);
            var k := Classify(raw);
            && (k.CapabilityLine? <==> && !StartsWith(line, "BSS ") && !Contains(line, "SSID:")
                                       && !Contains(line, "signal:") && Contains(line, "capability:"))
            && (k.CapabilityLine? ==> (k.privacy <==> Contains(line, "Privacy")))
  {
  }

  /** The networks closed so far and the one being read. */
  datatype ScanState = ScanState(networks: seq<Network>, current: Network)

  /** The networks once the current one, if it has a field, is closed. */
  function Flush(s: ScanState): seq<Network>
  {
    if HasFields(s.current) then s.networks + [s.current] else s.networks
  }

  /** The effect of one line. */
  function Step(s: ScanState, k: LineKind): ScanState
  {
    match k
    case BssLine(b) => ScanState(Flush(s), Network(Some(b), None, None, None))
    case SsidLine(v) => ScanState(s.networks, s.current.(ssid := Some(v)))
    case SignalLine(v) => ScanState(s.networks, s.current.(signal := Some(v)))
    case CapabilityLine(p) => ScanState(s.networks, s.current.(encrypted := Some(p)))
    case OtherLine => s
  }

  /** The state after the given lines, read in order. */
  function ScanLines(ls: seq<string>): ScanState
  {
    if ls == [] then ScanState([], NO_NETWORK)
    else Step(ScanLines(ls[..|ls| - 1]), Classify(ls[|ls| - 1]))
  }

  lemma ScanLinesSnoc(lines: seq<string>, i: nat)
    requires i < |lines|
    ensures ScanLines(lines[..i + 1]) == Step(ScanLines(lines[..i]), Classify(lines[i]))
  {
    assert lines[..i + 1][..i] == lines[..i];
  }

  /** What `scan_networks` returns for the scan command's result. */
  function ScanResult(success: bool, output: string): seq<Network>
  {
    if success then Flush(ScanLines(Split(output, "\n"))) else []
  }

  /** The body of the scan loop: one line updates the closed networks and the current one. */
  method ReadScanLine(networks: seq<Network>, current: Network, raw: string)
    returns (networks': seq<Network>, current': Network)
    ensures ScanState(networks', current') == Step(ScanState(networks, current), Classify(raw))
  {
    networks', current' := networks, current;
    var line := Strip(raw);
    if StartsWith(line, "BSS ") {
      if current != NO_NETWORK {
        networks' := networks + [current];
      }
      SecondWord(raw);
      StripEnds(raw);
      var open := RemoveChar(Words(line)[1], '(');
      current' := Network(Some(RemoveChar(open, ')')), None, None, None);
    } else if Contains(line, "SSID:") {
      current' := current.(ssid := Some(Strip(After(line, "SSID:"))));
    } else if Contains(line, "signal:") {
      current' := current.(signal := Some(Strip(After(line, "signal:"))));
    } else if Contains(line, "capability:") {
      current' := current.(encrypted := Some(Contains(line, "Privacy")));
    }
  }

  /** The loop of `scan_networks`: the closed networks and the current one after the given lines. */
  method ReadScanLines(lines: seq<string>) returns (networks: seq<Network>, current: Network)
    ensures ScanState(networks, current) == ScanLines(lines)
  {
    networks, current := [], NO_NETWORK;
    var i := 0;
    assert lines[..0] == [];
    while i < |lines|
      invariant 0 <= i <= |lines|
      invariant ScanState(networks, current) == ScanLines(lines[..i])
    {
      ScanLinesSnoc(lines, i);
      networks, current := ReadScanLine(networks, current, lines[i]);
      i := i + 1;
    }
    assert lines[..|lines|] == lines;
  }

  /** `scan_networks()`, given the scan command's success flag and output. */
  method ScanNetworks(success: bool, output: string) returns (networks: seq<Network>)
    ensures !success ==> networks == []
    ensures networks == ScanResult(success, output)
  {
    if !success {
      return [];
    }
    var current;
    networks, current := ReadScanLines(Split(output, "\n"));
    if current != NO_NETWORK {
      networks := networks + [current];
    }
  }

  // The order of the result, argued on the kinds of the lines.

  /** The kinds of the lines, in order. */
  function Kinds(ls: seq<string>): (ks: seq<LineKind>)
    ensures |ks| == |ls|
  {
    if ls == [] then [] else Kinds(ls[..|ls| - 1]) + [Classify(ls[|ls| - 1])]
  }

  /** Reading kinds instead of lines: the same fold. */
  function ScanKinds(ks: seq<LineKind>): ScanState
  {
    if ks == [] then ScanState([], NO_NETWORK)
    else Step(ScanKinds(ks[..|ks| - 1]), ks[|ks| - 1])
  }

  lemma {:induction false} ScanLinesKinds(ls: seq<string>)
    ensures ScanLines(ls) == ScanKinds(Kinds(ls))
    decreases |ls|
  {
    if ls != [] {
      var ks := Kinds(ls);
      ScanLinesKinds(ls[..|ls| - 1]);
      assert ks[..|ks| - 1] == Kinds(ls[..|ls| - 1]);
    }
  }

  predicate IsField(k: LineKind)
  {
    k.SsidLine? || k.SignalLine? || k.CapabilityLine?
  }

  /** The bssids of a list of networks, in order. */
  function Bssids(ns: seq<Network>): (r: seq<Option<string>>)
    ensures |r| == |ns|
  {
    if ns == [] then [] else Bssids(ns[..|ns| - 1]) + [ns[|ns| - 1].bssid]
  }

  lemma BssidsSnoc(ns: seq<Network>, n: Network)
    ensures Bssids(ns + [n]) == Bssids(ns) + [n.bssid]
  {
    assert (ns + [n])[..|ns|] == ns;
  }

  /** The bssids of the `BSS` lines, in order. */
  function BssLines(ks: seq<LineKind>): seq<Option<string>>
  {
    if ks == [] then []
    else BssLines(ks[..|ks| - 1]) + (if ks[|ks| - 1].BssLine? then [Some(ks[|ks| - 1].bssid)] else [])
  }

  /** Some line is a `BSS` line. */
  predicate HasBss(ks: seq<LineKind>)
  {
    ks != [] && (HasBss(ks[..|ks| - 1]) || ks[|ks| - 1].BssLine?)
  }

  /** Some line is a field line. */
  predicate AnyField(ks: seq<LineKind>)
  {
    ks != [] && (AnyField(ks[..|ks| - 1]) || IsField(ks[|ks| - 1]))
  }

  /** A field line comes before the first `BSS` line: its values land in a record with no bssid. */
  predicate HasOrphan(ks: seq<LineKind>)
  {
    ks != [] && (HasOrphan(ks[..|ks| - 1]) || (IsField(ks[|ks| - 1]) && !HasBss(ks[..|ks| - 1])))
  }

  predicate AllHaveFields(ns: seq<Network>)
  {
    forall k :: 0 <= k < |ns| ==> HasFields(ns[k])
  }

  lemma FieldsAppend(ns: seq<Network>, n: Network)
    requires AllHaveFields(ns) && HasFields(n)
    ensures AllHaveFields(ns + [n])
  {
    assert forall k :: 0 <= k < |ns| ==> (ns + [n])[k] == ns[k];
  }

  /**
   * What the scan knows, given whether a `BSS` line was read (`bss`), whether
   * a field line was read (`field`), whether a field line came before every
   * `BSS` line (`orphan`) and the bssids of the `BSS` lines (`ids`): the
   * current record has a bssid once a `BSS` line was read, and a field once
   * anything was read; every closed record has a field; and the bssids of the
   * result are `ids` in order, after one bssid-less record if there is an
   * orphan.
   */
  predicate StateInv(s: ScanState, bss: bool, field: bool, orphan: bool, ids: seq<Option<string>>)
  {
    && (s.current.bssid.Some? <==> bss)
    && (HasFields(s.current) <==> bss || field)
    && (!bss ==> (orphan <==> field) && ids == [])
    && Bssids(Flush(s)) == (if orphan then [None] else []) + ids
    && AllHaveFields(Flush(s))
  }

  /** The invariant after lines of kinds `ks`. */
  predicate ScanInv(ks: seq<LineKind>, s: ScanState)
  {
    StateInv(s, HasBss(ks), AnyField(ks), HasOrphan(ks), BssLines(ks))
  }

  /** A `BSS` line closes the current record, if it has a field, and opens one with a bssid. */
  lemma BssKeeps(s: ScanState, b: string, bss: bool, field: bool, orphan: bool, ids: seq<Option<string>>)
    requires StateInv(s, bss, field, orphan, ids)
    ensures StateInv(Step(s, BssLine(b)), true, field, orphan, ids + [Some(b)])
  {
    var t := Step(s, BssLine(b));
    assert t == ScanState(Flush(s), Network(Some(b), None, None, None));
    assert Flush(t) == Flush(s) + [t.current];
    BssidsSnoc(Flush(s), t.current);
    FieldsAppend(Flush(s), t.current);
  }

  /** A field line fills in the current record, which then has a field. */
  lemma FieldKeeps(s: ScanState, k: LineKind, bss: bool, field: bool, orphan: bool, ids: seq<Option<string>>)
    requires IsField(k) && StateInv(s, bss, field, orphan, ids)
    ensures StateInv(Step(s, k), bss, true, orphan || !bss, ids)
  {
    if HasFields(s.current) {
      FieldFillsRecord(s, k, bss, field, orphan, ids);
    } else {
      FieldStartsOrphan(s, k, bss, field, orphan, ids);
    }
  }

  lemma FieldFillsRecord(s: ScanState, k: LineKind, bss: bool, field: bool, orphan: bool, ids: seq<Option<string>>)
    requires IsField(k) && StateInv(s, bss, field, orphan, ids)
    requires HasFields(s.current)
    ensures StateInv(Step(s, k), bss, true, orphan || !bss, ids)
  {
    var t := Step(s, k);
    assert Flush(s) == s.networks + [s.current];
    BssidsSnoc(s.networks, t.current);
    BssidsSnoc(s.networks, s.current);
    assert forall j :: 0 <= j < |s.networks| ==> Flush(s)[j] == s.networks[j];
    FieldsAppend(s.networks, t.current);
  }

  /** A field line before anything else starts a record with no bssid. */
  lemma FieldStartsOrphan(s: ScanState, k: LineKind, bss: bool, field: bool, orphan: bool, ids: seq<Option<string>>)
    requires IsField(k) && StateInv(s, bss, field, orphan, ids)
    requires !HasFields(s.current)
    ensures StateInv(Step(s, k), bss, true, orphan || !bss, ids)
  {
    var t := Step(s, k);
    assert Flush(s) == s.networks;
    assert t.networks == s.networks;
    BssidsSnoc(s.networks, t.current);
    FieldsAppend(s.networks, t.current);
  }

  lemma {:induction false} ScanInvariant(ks: seq<LineKind>)
    ensures ScanInv(ks, ScanKinds(ks))
    decreases |ks|
  {
    if ks != [] {
      var p, k := ks[..|ks| - 1], ks[|ks| - 1];
      ScanInvariant(p);
      var s := ScanKinds(p);
      if k.BssLine? {
        BssKeeps(s, k.bssid, HasBss(p), AnyField(p), HasOrphan(p), BssLines(p));
      } else if IsField(k) {
        FieldKeeps(s, k, HasBss(p), AnyField(p), HasOrphan(p), BssLines(p));
      }
    }
  }

  /**
   * The scan lists networks in the order of their `BSS` lines, each with that
   * line's bssid; the only record without a bssid is a first one made of
   * fields that came before any `BSS` line. No record is empty.
   */
  lemma ScanOrder(output: string)
    ensures var ks := Kinds(Split(output, "\n"));
            var r := ScanResult(true, output);
            && Bssids(r) == (if HasOrphan(ks) then [None] else []) + BssLines(ks)
            && AllHaveFields(r)
  {
    ScanLinesKinds(Split(output, "\n"));
    ScanInvariant(Kinds(Split(output, "\n")));
  }

  // ---------------------------------------------------------------------------
  // Reading `iw dev <interface> station dump` and /proc/net/arp
  // (WiFiManager.get_connected_clients)
  // ---------------------------------------------------------------------------

  /** A connected client: its MAC as the station dump gave it, and its address if the ARP table has one. */
  datatype Client = Client(mac: string, ip: Option<string>)

  /** The MAC named by a station line: its second token, if the line mentions "Station". */
  function StationMac(line: string): Option<string>
  {
    if Contains(line, "Station") then
      var parts := Words(line);
      if |parts| >= 2 then Some(parts[1]) else None
    else None
  }

  /** A station line adds the client it names, with no address yet. */
  function AddStation(cs: seq<Client>, line: string): seq<Client>
  {
    match StationMac(line)
    case Some(m) => cs + [Client(m, None)]
    case None => cs
  }

  /** One client per station line, in order, none with an address yet. */
  function Stations(ls: seq<string>): (cs: seq<Client>)
    ensures forall j :: 0 <= j < |cs| ==> cs[j].ip.None?
  {
    if ls == [] then [] else AddStation(Stations(ls[..|ls| - 1]), ls[|ls| - 1])
  }


  /** An ARP table line with at least six tokens: its address (token 1) and its MAC (token 4), upper-cased. */
  function ArpEntry(line: string): Option<(string, string)>
  {
    var parts := Words(line);
    if |parts| >= 6 then Some((parts[0], Upper(parts[3]))) else None
  }

  /** The first client whose MAC, upper-cased, is `mac`. */
  function FirstWithMac(cs: seq<Client>, mac: string): (r: Option<nat>)
    ensures r.Some? ==> && r.value < |cs| && Upper(cs[r.value].mac) == mac
                        && forall j :: 0 <= j < r.value ==> Upper(cs[j].mac) != mac
    ensures r.None? ==> forall j :: 0 <= j < |cs| ==> Upper(cs[j].mac) != mac
  {
    if cs == [] then None
    else if Upper(cs[0].mac) == mac then Some(0)
    else
      match FirstWithMac(cs[1..], mac)
      case None => None
      case Some(k) => Some(k + 1)
  }

  /** One ARP line gives its address to the first client with its MAC. */
  function ApplyArp(cs: seq<Client>, line: string): seq<Client>
  {
    match ArpEntry(line)
    case None => cs
    case Some((ip, mac)) =>
      match FirstWithMac(cs, mac)
      case None => cs
      case Some(k) => cs[k := cs[k].(ip := Some(ip))]
  }

  /** The clients after the given ARP lines, read in order. */
  function ArpLines(cs: seq<Client>, ls: seq<string>): seq<Client>
  {
    if ls == [] then cs else ApplyArp(ArpLines(cs, ls[..|ls| - 1]), ls[|ls| - 1])
  }

  /** The station dump's clients, if the command gave output. */
  function StationClients(stationOk: bool, stationOut: string): seq<Client>
  {
    if stationOk && stationOut != "" then Stations(Split(stationOut, "\n")) else []
  }

  /** What `get_connected_clients` returns for the two commands' results; the ARP table's first line is its header. */
  function ConnectedClients(stationOk: bool, stationOut: string, arpOk: bool, arpOut: string): seq<Client>
  {
    var cs := StationClients(stationOk, stationOut);
    if arpOk then ArpLines(cs, Split(arpOut, "\n")[1..]) else cs
  }

  lemma StationsSnoc(lines: seq<string>, i: nat)
    requires i < |lines|
    ensures Stations(lines[..i + 1]) == AddStation(Stations(lines[..i]), lines[i])
  {
    assert lines[..i + 1][..i] == lines[..i];
  }

  /** The body of the station loop. */
  method ReadStationLine(clients: seq<Client>, line: string) returns (clients': seq<Client>)
    ensures clients' == AddStation(clients, line)
  {
    clients' := clients;
    if Contains(line, "Station") {
      var parts := Words(line);
      if |parts| >= 2 {
        clients' := clients + [Client(parts[1], None)];
      }
    }
  }


  lemma ArpLinesSnoc(cs: seq<Client>, lines: seq<string>, i: nat)
    requires i < |lines|
    ensures ArpLines(cs, lines[..i + 1]) == ApplyArp(ArpLines(cs, lines[..i]), lines[i])
  {
    assert lines[..i + 1][..i] == lines[..i];
  }

  /** The body of the ARP loop, with its inner search over the clients. */
  method ApplyArpLine(clients: seq<Client>, line: string) returns (clients': seq<Client>)
    ensures clients' == ApplyArp(clients, line)
  {
    clients' := clients;
    var parts := Words(line);
    if |parts| >= 6 {
      var ip := parts[0];
      var mac := Upper(parts[3]);
      var j := 0;
      while j < |clients'|
        invariant 0 <= j <= |clients'| && clients' == clients
        invariant forall i :: 0 <= i < j ==> Upper(clients[i].mac) != mac
      {
        if Upper(clients'[j].mac) == mac {
          assert FirstWithMac(clients, mac) == Some(j);
          clients' := clients'[j := clients'[j].(ip := Some(ip))];
          break;
        }
        j := j + 1;
      }
    }
  }

  /** The station-dump loop of `get_connected_clients`: one client per station line. */
  method ReadStations(lines: seq<string>) returns (clients: seq<Client>)
    ensures clients == Stations(lines)
  {
    clients := [];
    var i := 0;
    assert lines[..0] == [];
    while i < |lines|
      invariant 0 <= i <= |lines|
      invariant clients == Stations(lines[..i])
    {
      StationsSnoc(lines, i);
      clients := ReadStationLine(clients, lines[i]);
      i := i + 1;
    }
    assert lines[..|lines|] == lines;
  }

  /** The ARP-table loop of `get_connected_clients`: each line gives its address to the first client with its MAC. */
  method ReadArpTable(stations: seq<Client>, lines: seq<string>) returns (clients: seq<Client>)
    ensures clients == ArpLines(stations, lines)
  {
    clients := stations;
    var i := 0;
    assert lines[..0] == [];
    while i < |lines|
      invariant 0 <= i <= |lines|
      invariant clients == ArpLines(stations, lines[..i])
    {
      ArpLinesSnoc(stations, lines, i);
      clients := ApplyArpLine(clients, lines[i]);
      i := i + 1;
    }
    assert lines[..|lines|] == lines;
  }

  /** `get_connected_clients()`, given the station dump's and the ARP table's results. */
  method GetConnectedClients(stationOk: bool, stationOut: string, arpOk: bool, arpOut: string)
    returns (clients: seq<Client>)
    ensures clients == ConnectedClients(stationOk, stationOut, arpOk, arpOut)
  {
    clients := [];
    if stationOk && stationOut != "" {
      clients := ReadStations(Split(stationOut, "\n"));
    }
    if arpOk {
      clients := ReadArpTable(clients, Split(arpOut, "\n")[1..]);
    }
  }

  /** The address of the last ARP line for `mac`. */
  function LastArpIp(ls: seq<string>, mac: string): Option<string>
  {
    if ls == [] then None
    else
      match ArpEntry(ls[|ls| - 1])
      case Some((ip, m)) => if m == mac then Some(ip) else LastArpIp(ls[..|ls| - 1], mac)
      case None => LastArpIp(ls[..|ls| - 1], mac)
  }

  /** Clients with the same MACs, upper-cased, are searched alike. */
  lemma FirstWithSameMacs(a: seq<Client>, b: seq<Client>, mac: string)
    requires |a| == |b| && forall j :: 0 <= j < |a| ==> a[j].mac == b[j].mac
    ensures FirstWithMac(a, mac) == FirstWithMac(b, mac)
  {
  }

  /** The address the ARP lines give client `j`: the last one for its MAC, if it is the first client with that MAC. */
  function ArpIp(cs: seq<Client>, ls: seq<string>, j: nat): Option<string>
    requires j < |cs|
  {
    var m := Upper(cs[j].mac);
    if FirstWithMac(cs, m) == Some(j) && LastArpIp(ls, m).Some? then LastArpIp(ls, m) else cs[j].ip
  }

  /** `r` is what the ARP lines `ls` make of the clients `cs`. */
  predicate ArpInv(cs: seq<Client>, ls: seq<string>, r: seq<Client>)
  {
    && |r| == |cs|
    && forall j :: 0 <= j < |cs| ==> r[j].mac == cs[j].mac && r[j].ip == ArpIp(cs, ls, j)
  }

  lemma LastArpIpStep(ls: seq<string>, m: string)
    requires ls != []
    ensures var e := ArpEntry(ls[|ls| - 1]);
            LastArpIp(ls, m) == if e.Some? && e.value.1 == m then Some(e.value.0) else LastArpIp(ls[..|ls| - 1], m)
  {
  }

  /** A line that is not an ARP entry changes nothing. */
  lemma ArpSkipKeeps(cs: seq<Client>, ls: seq<string>, rp: seq<Client>)
    requires ls != [] && ArpEntry(ls[|ls| - 1]).None? && ArpInv(cs, ls[..|ls| - 1], rp)
    ensures ArpInv(cs, ls, ApplyArp(rp, ls[|ls| - 1]))
  {
    forall j | 0 <= j < |cs|
      ensures ArpIp(cs, ls, j) == ArpIp(cs, ls[..|ls| - 1], j)
    {
      LastArpIpStep(ls, Upper(cs[j].mac));
    }
  }

  /** An entry gives its address to the first client with its MAC, and only to it. */
  lemma ArpEntryKeeps(cs: seq<Client>, ls: seq<string>, rp: seq<Client>, ip: string, mac: string)
    requires ls != [] && ArpEntry(ls[|ls| - 1]) == Some((ip, mac)) && ArpInv(cs, ls[..|ls| - 1], rp)
    ensures ArpInv(cs, ls, ApplyArp(rp, ls[|ls| - 1]))
  {
    var r := ApplyArp(rp, ls[|ls| - 1]);
    FirstWithSameMacs(rp, cs, mac);
    forall j | 0 <= j < |cs|
      ensures r[j].mac == cs[j].mac && r[j].ip == ArpIp(cs, ls, j)
    {
      LastArpIpStep(ls, Upper(cs[j].mac));
    }
  }

  /**
   * ARP lines add no client and change no MAC; each client ends with the
   * address of the last ARP line for its MAC, compared upper-cased, provided
   * no earlier client has the same MAC.
   */
  lemma {:induction false} ArpLinesMeaning(cs: seq<Client>, ls: seq<string>)
    ensures ArpInv(cs, ls, ArpLines(cs, ls))
    decreases |ls|
  {
    if ls != [] {
      var p := ls[..|ls| - 1];
      ArpLinesMeaning(cs, p);
      match ArpEntry(ls[|ls| - 1])
      case None => ArpSkipKeeps(cs, ls, ArpLines(cs, p));
      case Some((ip, mac)) => ArpEntryKeeps(cs, ls, ArpLines(cs, p), ip, mac);
    }
  }

  /**
   * `get_connected_clients` lists one client per station line with two tokens,
   * in order, keeping the MAC as the dump wrote it; a client's address is the
   * one the last ARP line for its MAC gives (MACs compared upper-cased), if the
   * ARP table was read and no earlier client has the same MAC, and `None`
   * otherwise.
   */
  lemma ConnectedMeaning(stationOk: bool, stationOut: string, arpOk: bool, arpOut: string)
    ensures var cs := StationClients(stationOk, stationOut);
            var r := ConnectedClients(stationOk, stationOut, arpOk, arpOut);
            && |r| == |cs|
            && forall j :: 0 <= j < |cs| ==>
                 && r[j].mac == cs[j].mac
                 && r[j].ip == (if arpOk && FirstWithMac(cs, Upper(cs[j].mac)) == Some(j)
                                then LastArpIp(Split(arpOut, "\n")[1..], Upper(cs[j].mac))
                                else None)
  {
    var cs := StationClients(stationOk, stationOut);
    if arpOk {
      ArpLinesMeaning(cs, Split(arpOut, "\n")[1..]);
    }
  }
}
