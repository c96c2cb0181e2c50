# NetGuard captive portal — a verified Dafny model of its core

NetGuard is a captive portal for a Linux gateway. A client on the LAN is
held by the firewall until it logs in through the portal's web page. A
successful login binds the client's IP to its MAC in `iptables` and opens
forwarding for it. A background monitor ends sessions that time out or
whose MAC changes. A small DNS server answers every query with the portal's
address. A Wi-Fi manager writes the hostapd and dnsmasq configuration files
and reads `iw` scan and station output.

The model covers five parts of the portal:

- **Firewall** (`firewall.dfy`, `src/firewall/manager.py`)
  - `FwState` is the authorised-IP set plus the log of shell commands issued.
  - `Authorize`/`Revoke` are the pure transitions.
  - The class `FirewallManager` has the fields `authorizedIps` and `log`, and methods proved equal to those transitions.
  - The shell is an oracle `Shell = (Command, nat) -> bool`. The `nat` is the command's position in the log, so repeated commands may succeed or fail independently.
- **Sessions** (`sessions.dfy`, `src/auth/sessions.py`)
  - `Portal` holds the session dict, its insertion order and the gateway state.
  - `Create`, `End`, the expiry and spoof sweeps, `Tick` and `Shutdown` are pure transitions.
  - The class `SessionManager` has methods proved equal to them. The methods `Collect` and `EndEach` carry the sweeps' two loops.
  - The pairing invariant `Paired` is preserved by every transition: a row exists exactly when its IP is authorised.
  - `get_mac_from_ip` is an oracle `Resolver = string -> Option<string>`.
- **HTTP handling** (`handlers.dfy`, `src/http_server/handlers.py`)
  - The request parser, and the response and redirect serialisers, with their read-back and round-trip properties.
  - The routing table `Handle` and the login step `Login`.
  - The class `RequestHandler`, whose methods act on a `SessionManager`.
  - Credential checking, form-field extraction and the two templates are oracles in `Env`.
- **DNS** (`dns.dfy`, `src/dns/dns_server.py`)
  - The captive answer encoder, as a method with the source's `while` loop.
  - Its output is read back as the header, question and resource record of RFC 1035 (sections 4.1.1 to 4.1.4).
- **Wi-Fi** (`wifi.dfy`, `src/wifi/manager.py`)
  - The hostapd and dnsmasq configuration texts, read back key by key.
  - The parser of `iw ... scan` output.
  - The station-dump and ARP-table reader behind `get_connected_clients`, with the source's loops as methods.
  - Command outputs are parameters.

Three supporting files:

- `common.dfy` holds `Option` and `byte`.
- `config.dfy` holds the constants of `src/config.py`.
- `text.dfy` gives Python's string operations their exact semantics: `find`, `split`, `strip`, whitespace `split()`, decimal `str()` and UTF-8 length. `upper` and `int()` follow Python on ASCII input only. It also proves the facts the rest uses, for example that `Join` and `Split` are inverse when no piece contains the separator.

Time is an integer `now`. Python dicts keep insertion order, so a sweep
ends sessions in the order they were created; that order is modelled
explicitly.

## Model

| member | source | states |
|---|---|---|
| Firewall.Authorize | src/firewall/manager.py:62-83 | An authorised IP succeeds with nothing run, even with no MAC. An unauthorised IP with an empty or missing MAC is refused with nothing run. Otherwise the log gains the accept rule, followed by the three bypass rules only when it succeeds; success holds iff that one command succeeds, whatever the bypass rules return. The IP is added exactly on success. |
| Firewall.Revoke | src/firewall/manager.py:85-100 | Returns True iff the IP was authorised. The IP is always discarded. The five revoke commands are logged only for an authorised IP with a MAC; otherwise the log is unchanged. |
| Firewall.RebindAfterRevoke | src/firewall/manager.py:65-98 | After a revoke, authorising the same IP and MAC again re-admits the IP when the accept rule succeeds, restoring the original authorised set. |
| Firewall.FirewallManager.constructor | src/firewall/manager.py:12-14 | Starts with nothing authorised and no command issued. |
| Firewall.FirewallManager.Run | src/firewall/manager.py:16-21 | Appends the command to the log and returns the shell's verdict for it. |
| Firewall.FirewallManager.InitializeRules | src/firewall/manager.py:23-60 | Succeeds iff all eleven baseline commands succeed. On success the log holds them in order, then the ip_forward command, whose result is ignored. On failure the log stops at the first failing command: every command before it succeeded and none after it runs. The authorised set is untouched. |
| Firewall.FirewallManager.AuthorizeIp | src/firewall/manager.py:62-83 | New state and result are exactly those of `Authorize`. |
| Firewall.FirewallManager.RevokeIp | src/firewall/manager.py:85-100 | New state and result are exactly those of `Revoke`. |
| Firewall.FirewallManager.Cleanup | src/firewall/manager.py:102-106 | Logs the three teardown commands and leaves the authorised set alone. |
| Sessions.ExpireSweep | src/auth/sessions.py:32-43 | The expiry sweep: the rows that `ExpiredTest` selects, in insertion order, each ended by `End`. `ExpireSweepEndsExactlyExpired` states its meaning. |
| Sessions.SpoofSweep | src/auth/sessions.py:45-60 | The spoof sweep: the rows that `SpoofedTest` selects, in insertion order, each ended by `End`. `SpoofSweepEndsExactlySpoofed` and `UnresolvedSurvivesSpoofSweep` state its meaning. |
| Sessions.Tick | src/auth/sessions.py:26-30 | One pass of the monitor: the expiry sweep, then the spoof sweep. `NoSessionOutlivesTimeout` states its meaning. |
| Sessions.Shutdown | src/auth/sessions.py:99-104 | Every row ended in insertion order. `ShutdownEndsAll` states its meaning. |
| Sessions.InitiallyPaired | src/auth/sessions.py:16-20 | An empty session table over a gateway with nothing authorised satisfies the pairing invariant. |
| Sessions.Filter | src/auth/sessions.py:36-39 | The collected list holds exactly the rows passing the test, each once. |
| Sessions.Create | src/auth/sessions.py:62-77 | Succeeds iff the firewall authorises the IP with the resolved MAC, and the gateway state is exactly that of `authorize_ip` either way. On failure the table and its order are unchanged. On success the row becomes (user, now, resolved MAC) and no other row changes. A new IP goes last in the order, while an overwritten row keeps its place. The pairing invariant is kept. |
| Sessions.End | src/auth/sessions.py:79-89 | Returns True iff a row existed. An absent IP changes nothing. A present IP loses exactly its row, and the gateway is revoked with the stored MAC. The other rows keep their insertion order, with the ended IP cut out where it stood. The pairing invariant is kept. |
| Sessions.WithoutAbsent | src/auth/sessions.py:85 | Deleting a key that is not in the order leaves the order unchanged. |
| Sessions.WithoutSplice | src/auth/sessions.py:85 | `del` on the dict keeps the other keys in order: a key present once is cut out of the place where it stood. |
| Sessions.CreateThenAuthenticated | src/auth/sessions.py:69-74 | After a successful login the IP has a row carrying that user name and login time. |
| Sessions.CreateWithoutMacFails | src/auth/sessions.py:63-67 | A new IP whose MAC does not resolve cannot log in, and nothing changes. |
| Sessions.EndIdempotent | src/auth/sessions.py:81-83 | A second `end_session` right after the first returns False and changes nothing. |
| Sessions.ReloginWithoutMacKeepsOldBinding | src/auth/sessions.py:62-89 | An authorised IP whose MAC no longer resolves logs in again successfully. The stored MAC becomes none while the gateway keeps the old MAC's rules. A later `end_session` then issues no command, so those rules are never removed. |
| Sessions.EndAllEffect | src/auth/sessions.py:41-42 | Ending a list of distinct IPs removes exactly those rows and keeps the pairing invariant. It issues, in list order, the revoke commands of each listed row that stores a MAC. |
| Sessions.EndAllRemoves | src/auth/sessions.py:41-42 | Ending each IP of a list removes exactly the listed rows and keeps the pairing invariant. |
| Sessions.EndAllRevokes | src/auth/sessions.py:41-42 | For distinct IPs, the commands issued are, in list order, the revoke commands of each ended row that stores a MAC. |
| Sessions.ExpireSweepEndsExactlyExpired | src/auth/sessions.py:32-43 | The expiry sweep ends exactly the rows with `now - login_time > SESSION_TIMEOUT` (strict) and leaves the others as they were. It revokes in insertion order and keeps the pairing invariant. |
| Sessions.SpoofSweepEndsExactlySpoofed | src/auth/sessions.py:45-60 | The spoof sweep ends exactly the rows that store a MAC and whose IP now resolves to a different, non-empty MAC. The others are kept unchanged, revokes come in insertion order, and the pairing invariant holds. |
| Sessions.UnresolvedSurvivesSpoofSweep | src/auth/sessions.py:50-52 | A row whose IP does not resolve survives the spoof sweep. |
| Sessions.NoSessionOutlivesTimeout | src/auth/sessions.py:26-30 | After one monitor tick, no row older than the timeout remains, and its IP is no longer authorised. |
| Sessions.ShutdownEndsAll | src/auth/sessions.py:99-104 | `stop` leaves no row and nothing authorised. It issues, in insertion order, the revoke commands of each row that stores a MAC. |
| Sessions.SessionManager.constructor | src/auth/sessions.py:16-24 | Starts running, with an empty table over the given gateway. |
| Sessions.SessionManager.IsAuthenticated | src/auth/sessions.py:91-93 | While the table and the gateway are paired, an IP is authenticated iff the gateway has it authorised. |
| Sessions.SessionManager.GetSession | src/auth/sessions.py:95-97 | Finds a row exactly when `is_authenticated` holds, and it is the stored row. |
| Sessions.SessionManager.CreateSession | src/auth/sessions.py:62-77 | New state and result are exactly those of `Create`. After success, `is_authenticated` holds and `get_session` returns the new row. |
| Sessions.SessionManager.EndSession | src/auth/sessions.py:79-89 | New state and result are exactly those of `End`. |
| Sessions.SessionManager.Collect | src/auth/sessions.py:36-39 | The loop collects, in insertion order, exactly the rows passing the test. |
| Sessions.SessionManager.EndEach | src/auth/sessions.py:41-42 | Ending each listed IP in turn gives exactly the state of `EndAll`. |
| Sessions.SessionManager.CleanupExpired | src/auth/sessions.py:32-43 | The new state is exactly that of the expiry sweep. |
| Sessions.SessionManager.CheckMacSpoofing | src/auth/sessions.py:45-60 | The new state is exactly that of the spoof sweep. |
| Sessions.SessionManager.MonitorTick | src/auth/sessions.py:26-30 | One tick is the expiry sweep followed by the spoof sweep. |
| Sessions.SessionManager.Stop | src/auth/sessions.py:99-104 | Clears the running flag and ends every row, giving exactly the state of `Shutdown`. |
| Handlers.ParseRequest | src/http_server/handlers.py:72-83 | The body is the text after the first blank line, or empty when there is none. The method is always the first token of the first line, so the `'GET'` default never applies. The path is the text between the first and second space of the first line, cut at the first `?`. When that line has no space, the path is `/`. The path never contains `?`. |
| Handlers.RequestRoundTrip | src/http_server/handlers.py:72-83 | A request line, CR-free non-empty headers, a blank line and a body parse back to the method, the target cut at `?`, and the body. This holds when the method and target contain no space or CR. |
| Handlers.MessageRoundTrip | src/http_server/handlers.py:73-78 | Lines joined by CRLF, then a blank line, then any body, split back into the same lines and body. |
| Handlers.Response | src/http_server/handlers.py:85-95 | `_response`: the five header lines joined by CRLF, then a blank line, then the body. `ResponseReadsBack` and `PageReadsBack` state what a client reads from it. |
| Handlers.Redirect | src/http_server/handlers.py:97-106 | `_redirect`: the 302 header lines, then a blank line, then the generated body. `RedirectReadsBack` states what a client reads from it. |
| Handlers.ResponseReadsBack | src/http_server/handlers.py:85-95 | The status line carries the code and its reason, and any code but 302 and 404 reads `OK`. The Content-Type is the given one, Content-Length is the body's UTF-8 byte length, there is no Location header, and the body follows verbatim. |
| Handlers.RedirectReadsBack | src/http_server/handlers.py:97-106 | The status line is `HTTP/1.1 302 Found`, Location is the argument, and Content-Length is the UTF-8 length of the generated body. |
| Handlers.PageReadsBack | src/http_server/handlers.py:85-95 | A 200 page reads back as `HTTP/1.1 200 OK`, with the page as body and its byte length as Content-Length. |
| Handlers.PortalLoginUrl | src/http_server/handlers.py:32 | The portal login URL is `http://192.168.1.1:80/login`. |
| Handlers.Login | src/http_server/handlers.py:57-70 | Keeps the pairing invariant. Bad credentials leave the sessions unchanged. |
| Handlers.Handle | src/http_server/handlers.py:27-55 | Keeps the pairing invariant. Only `/logout` and a POST to `/login` can change any state. |
| Handlers.CaptiveProbeRedirects | src/http_server/handlers.py:31-32 | A captive-detection path redirects to the portal login URL with no state change, before any session lookup. |
| Handlers.LogoutEndsSession | src/http_server/handlers.py:41-43 | `/logout` ends the client's session and redirects to `/login`. |
| Handlers.StatusRoute | src/http_server/handlers.py:45-50 | `/status` shows the status page with the user's name when there is a session, and redirects to `/login` otherwise. Nothing changes. |
| Handlers.DefaultRoute | src/http_server/handlers.py:53-55 | Any other path redirects to `/status` iff the client is authenticated, and to `/login` iff not. Nothing changes. |
| Handlers.LoginForm | src/http_server/handlers.py:35-39 | `/login` with any method but POST shows the empty login form and changes nothing. |
| Handlers.LoginPost | src/http_server/handlers.py:57-70 | Good credentials run `create_session` and redirect to `/status`, whatever it returns. Bad credentials change nothing and show the form with the error text. |
| Handlers.RequestHandler.constructor | src/http_server/handlers.py:22-25 | Keeps the session manager and the client's IP. |
| Handlers.RequestHandler.HandleLogin | src/http_server/handlers.py:57-70 | The new session state and the response are exactly those of `Login`. |
| Handlers.RequestHandler.HandleRequest | src/http_server/handlers.py:27-55 | The new session state and the response are exactly those of `Handle`. |
| Dns.FirstZeroFrom | src/dns/dns_server.py:55-57 | Finds the first zero byte at or after the offset, or reports that none exists. |
| Dns.BytesMeaning | src/dns/dns_server.py:66 | The octet list exists iff every value is an integer from 0 to 255, and it holds those values. |
| Dns.OctetsOfDotted | src/dns/dns_server.py:66 | A dotted-decimal string reads back as the octets it was written from. |
| Dns.PortalIpOctets | src/dns/dns_server.py:66 | The configured portal address gives the four octets 192, 168, 1, 1. |
| Dns.ChoosePortalIp | src/dns/dns_server.py:11-12 | A non-empty argument is used as given. A missing or empty one falls back to the configured portal address. |
| Dns.QuestionEnd | src/dns/dns_server.py:58-59 | The question ends five bytes after the name's zero byte (the zero byte, then type and class), or at the end of a query too short for that. |
| Dns.Answer | src/dns/dns_server.py:50-66 | The bytes `_build_response` assembles for a query whose name ends at a given zero byte. `AnswerLayout`, `AnswerFields` and `PortalAnswerLength` state their meaning. |
| Dns.AnswerLayout | src/dns/dns_server.py:50-66 | The answer is the query ID, then flags 81 80, then counts 1/1/0/0, then the question copied verbatim, then the 12-byte record prefix, then the address octets. |
| Dns.AnswerFields | src/dns/dns_server.py:50-66 | Read as RFC 1035 fields: same ID; flags 0x8180; QDCOUNT=ANCOUNT=1, NSCOUNT=ARCOUNT=0; a compression pointer to offset 12; type A; class IN; TTL 60; RDLENGTH 4. The RDATA is exactly 4 bytes iff the address has four octets. |
| Dns.PortalAnswerLength | src/dns/dns_server.py:50-66 | For the configured portal the answer is 12 bytes, plus the question, plus 16. |
| Dns.CaptivePortalDns.constructor | src/dns/dns_server.py:11-12 | The portal address is the argument, or the configured one when it is missing or empty. |
| Dns.CaptivePortalDns.BuildResponse | src/dns/dns_server.py:44-70 | No answer iff the query is shorter than 12 bytes, its name has no zero byte, or the portal address is not all octets. Otherwise the answer is the layout above. |
| Wifi.RenderReadsBack | src/wifi/manager.py:134-187 | Reading `key=value` lines from a rendered configuration gives, for every key, the values the lines set, in order. |
| Wifi.HostapdConfig | src/wifi/manager.py:132-168 | The text `create_hostapd_config` writes. `HostapdSettings`, `HostapdSecurity` and `HostapdNetwork` state what it sets. |
| Wifi.HostapdSettings | src/wifi/manager.py:132-168 | Each key of the hostapd file reads back as what the header, the radio lines and (for a secured network only) the WPA lines set. |
| Wifi.HostapdSecurity | src/wifi/manager.py:134-163 | A password of 8 characters or more gives `wpa=2`, `wpa_passphrase=<password>` and `rsn_pairwise=CCMP`. A shorter or empty one gives none of these keys. |
| Wifi.HostapdNetwork | src/wifi/manager.py:134-163 | Either way the file sets the interface, the SSID and the channel once each, to the given values. |
| Wifi.NetworkBaseValue | src/wifi/manager.py:173 | The network base, the portal address up to its last dot, is `192.168.1`. |
| Wifi.DnsmasqConfig | src/wifi/manager.py:170-192 | The text `create_dnsmasq_config` writes. `DnsmasqGroups`, `DnsmasqRange`, `DnsmasqOptions`, `DnsmasqPort` and `DnsmasqInterface` state what it sets. |
| Wifi.DnsmasqGroups | src/wifi/manager.py:170-192 | Each key of the dnsmasq file reads back as what its three groups of lines set. |
| Wifi.DnsmasqRange | src/wifi/manager.py:173-181 | The only DHCP range is `192.168.1.100,192.168.1.200,12h`. |
| Wifi.DnsmasqOptions | src/wifi/manager.py:182-183 | The DHCP options name the portal as router and as DNS server, in that order. |
| Wifi.DnsmasqPort | src/wifi/manager.py:180 | dnsmasq's own DNS service is off (`port=0`). |
| Wifi.DnsmasqInterface | src/wifi/manager.py:178 | The file binds only the given interface. |
| Wifi.ClassifyLine | src/wifi/manager.py:403-413 | After stripping, a line is a BSS line iff it starts with `BSS `. Its second token always exists, and the bssid is that token with every `(` and then every `)` removed. Otherwise it is an SSID line iff it contains `SSID:`, else a signal line iff it contains `signal:`, else a capability line iff it contains `capability:`. Values are the stripped text after the first marker. `encrypted` is true iff the line contains `Privacy`. |
| Text.RemoveCharConcat | src/wifi/manager.py:407 | `replace(c, '')` works piece by piece: removing `c` from a concatenation removes it from each part. |
| Text.RemoveCharOne | src/wifi/manager.py:407 | On a single character, `replace(c, '')` drops it exactly when it is `c`. |
| Wifi.BssidKeepsOn | src/wifi/manager.py:407 | Removing the parentheses keeps every other character. So a token `<mac>(on`, as in a line `BSS <mac>(on <interface>)`, gives the bssid `<mac>on`. |
| Wifi.ReadScanLine | src/wifi/manager.py:403-413 | One loop iteration performs the scan step for that line. |
| Wifi.ReadScanLines | src/wifi/manager.py:402-413 | The loop leaves exactly the state of reading all lines in order. |
| Wifi.ScanNetworks | src/wifi/manager.py:391-417 | A failed scan gives no network. Otherwise the result is the state after all lines, with the last record appended if it is non-empty. |
| Wifi.ScanResult | src/wifi/manager.py:399-417 | What `scan_networks` returns: nothing when the scan fails, otherwise the records after all lines with the last non-empty one appended. `ScanOrder` states its meaning. |
| Wifi.ScanOrder | src/wifi/manager.py:404-415 | Every returned record has a field. The BSSIDs are those of the BSS lines, in input order, after one record with no BSSID when a field line precedes every BSS line. |
| Wifi.Stations | src/wifi/manager.py:349-354 | Station lines give clients in order, none with an address yet. |
| Wifi.FirstWithMac | src/wifi/manager.py:365-368 | Finds the first client whose upper-cased MAC equals the given one, or reports that none does. |
| Wifi.ReadStationLine | src/wifi/manager.py:350-354 | One loop iteration adds the client a station line names. |
| Wifi.ReadStations | src/wifi/manager.py:349-354 | The station loop yields exactly the clients of `Stations`. |
| Wifi.ApplyArpLine | src/wifi/manager.py:360-368 | One loop iteration gives the line's address to the first client with its MAC. |
| Wifi.ReadArpTable | src/wifi/manager.py:359-368 | The ARP loop yields exactly the clients the ARP lines make. |
| Wifi.GetConnectedClients | src/wifi/manager.py:341-370 | The result is the station clients with the addresses from the ARP table. |
| Wifi.ConnectedClients | src/wifi/manager.py:346-368 | What `get_connected_clients` returns: the station clients when the dump succeeds with output, with the ARP table applied when that command succeeds. `ConnectedMeaning` states its meaning. |
| Wifi.ArpLinesMeaning | src/wifi/manager.py:359-368 | ARP lines add no client and change no MAC. Each client ends with the address of the last ARP line for its MAC, compared upper-cased, when it is the first client with that MAC; otherwise it keeps its address. |
| Wifi.ConnectedMeaning | src/wifi/manager.py:341-370 | There is one client per station line, with its MAC as written. Its address is the last ARP entry for its MAC, skipping the header and comparing case-insensitively, when it is the first client with that MAC; otherwise it has no address. |

## Left out

- Threads, locks and the 30-second sleep of the monitor are not modelled: one monitor tick is the method `MonitorTick` with `now` and the resolver as parameters.
- `get_session` returns the live dict in the source; here it returns a copy of the row. The spoof check resolves MACs while holding the lock; here it resolves them during the collection pass. Neither difference is visible sequentially.
- `get_mac_from_ip` comes from `utils.network`, which is not part of this model; it is the `Resolver` parameter.
- Running shell commands (`subprocess.run`) is the `Shell` oracle. The command log records each command issued, not its text.
- The LAN and WAN interface names, the external DNS server and the Wi-Fi defaults are kept abstract inside the `Command` constructors and the `Hotspot` settings.
- Hotspot lifecycle (starting and stopping hostapd and dnsmasq, interface checks and configuration, `WiFiClient.connect`/`disconnect`) is process control and is not modelled. The same goes for the `ip link set up` command that `scan_networks` issues first, whose result is ignored.
- Writing the configuration files is not modelled: the configuration builders return the text that would be written.
- Sockets, the DNS server's `start`/`stop`/`_loop` and the HTTP server's accept loop are not modelled. Neither are `main.py` and `gateway/preconfig.py`.
- Credential checking (hashing, salts, the JSON user store) is the `authenticate` oracle of `Env`.
- `load_template`, `str.format` on the templates and `urllib.parse.parse_qs` are the `loginPage`, `statusPage` and `field` functions of `Env`.
- `time.time()` is a float in the source; time here is an integer.
- `Text.Upper` maps only ASCII letters; Python's Unicode case mapping is wider. MAC addresses are ASCII, so it does not matter to the model.
- `Text.PyInt` accepts ASCII digits with an optional sign, surrounding whitespace and single underscores between digits. Python's `int()` also accepts non-ASCII decimal digits.
- The scan and client loops each run through a helper method per iteration (`ReadScanLine`, `ReadStationLine`, `ApplyArpLine`). The two loops of `get_connected_clients` are two methods, `ReadStations` and `ReadArpTable`.
- `Handlers.Handle`: its contract states only that the pairing invariant is kept and which routes may change state; the per-route lemmas state what each route does.
