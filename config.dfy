/** The configuration constants the modelled code reads (src/config.py). */
module Config {

  const PORTAL_IP: string := "192.168.1.1"
  const PORTAL_PORT: nat := 80

  /** Seconds a session may live before the expiry sweep ends it. */
  const SESSION_TIMEOUT: int := 3600

  /** Probe URLs operating systems fetch to detect a captive portal. */
  const CAPTIVE_DETECTION_PATHS: seq<string> := [
    "/generate_204",
    "/gen_204",
    "/hotspot-detect.html",
    "/ncsi.txt",
    "/connecttest.txt",
    "/success.txt"
  ]
}
