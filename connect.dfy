/**
 * The connect handlers: the transport choice made from the `Upgrade` and
 * `Connection` headers, the V3 feature gate and the error replies.
 */
module Connect {
  import opened Common

  /**
   * `strings.ToLower` on one rune, as far as a comparison with lower-case
   * ASCII text can tell: ASCII capitals, the Kelvin sign and the capital I
   * with dot above are the only runes whose lower case is an ASCII letter;
   * every other rune is kept (its lower case, if different, is not ASCII either).
   */
  function LowerRune(c: char): char
  {
    if 'A' <= c <= 'Z' then (c as int + 32) as char
    else if c == '\U{212A}' then 'k'
    else if c == '\U{0130}' then 'i'
    else c
  }

  function ToLower(s: string): (r: string)
    ensures |r| == |s| && forall i :: 0 <= i < |s| ==> r[i] == LowerRune(s[i])
  {
    if |s| == 0 then "" else [LowerRune(s[0])] + ToLower(s[1..])
  }

  /** The request asks for the duplex transport. */
  predicate WantsWebSocket(upgrade: string, connection: string)
  {
    ToLower(upgrade) == "websocket" || ToLower(connection) == "upgrade"
  }

  /** `c` is the lower-case ASCII letter `t` in either case. */
  predicate SameLetterIgnoringCase(c: char, t: char)
  {
    c == t || ('a' <= t <= 'z' && c == (t as int - 32) as char) ||
    (t == 'k' && c == '\U{212A}') || (t == 'i' && c == '\U{0130}')
  }

  /** Character-by-character case-insensitive comparison with lower-case ASCII text. */
  predicate EqualsIgnoringCase(h: string, target: string)
  {
    |h| == |target| && forall i :: 0 <= i < |h| ==> SameLetterIgnoringCase(h[i], target[i])
  }

  predicate IsLowerAscii(t: string)
  {
    forall i :: 0 <= i < |t| ==> 'a' <= t[i] <= 'z'
  }

  /** Lower-casing and comparing is the same as comparing letter by letter in either case. */
  lemma LowerEquals(h: string, target: string)
    requires IsLowerAscii(target)
    ensures ToLower(h) == target <==> EqualsIgnoringCase(h, target)
  {
    if EqualsIgnoringCase(h, target) {
      assert forall i :: 0 <= i < |h| ==> ToLower(h)[i] == target[i];
    }
  }

  /** The transport choice, stated header by header. */
  lemma WantsWebSocketIff(upgrade: string, connection: string)
    ensures WantsWebSocket(upgrade, connection) <==>
      EqualsIgnoringCase(upgrade, "websocket") || EqualsIgnoringCase(connection, "upgrade")
  {
    LowerEquals(upgrade, "websocket");
    LowerEquals(connection, "upgrade");
  }

  /** A browser's upgrade request, in any letter case, takes the duplex path. */
  lemma UpgradeHeaderExample()
    ensures WantsWebSocket("WebSocket", "")
  {
    var h := "WebSocket";
    var l := ToLower(h);
    assert l[0] == 'w' && l[1] == 'e' && l[2] == 'b' && l[3] == 's' && l[4] == 'o';
    assert l[5] == 'c' && l[6] == 'k' && l[7] == 'e' && l[8] == 't';
    assert l == "websocket";
  }

  /** `Connection: Upgrade` alone takes the duplex path too. */
  lemma ConnectionHeaderExample()
    ensures WantsWebSocket("", "Upgrade")
  {
    var h := "Upgrade";
    assert LowerRune(h[0]) == 'u';
    assert forall i :: 0 <= i < |h| ==> ToLower(h)[i] == "upgrade"[i];
  }

  /** The comparison is exact: a `Connection` list that merely contains `Upgrade` streams instead. */
  lemma ConnectionListExample()
    ensures !WantsWebSocket("", "keep-alive, Upgrade")
  {
    assert |ToLower("keep-alive, Upgrade")| == 19;
  }

  /** The two transports a connection can use. */
  datatype Transport = DuplexSocket | EventStream

  /** What the handler leaves behind: a status (when it sets one), a body, and the connection it made. */
  datatype Reply = Reply(status: Option<int>, body: string, connection: Option<Transport>)

  const StatusServiceUnavailable := 503
  const StatusBadRequest := 400

  /**
   * The V3 handler. `upgradeError` is the upgrader's own failure (duplex only),
   * `constructError` the failure of building the connection. On success the
   * handler sets no status itself and the connection goes to tracking.
   */
  function HandleV3(v3Enabled: bool, upgrade: string, connection: string,
                    upgradeError: Option<string>, constructError: Option<string>): (r: Reply)
    ensures !v3Enabled ==> r == Reply(Some(StatusServiceUnavailable), "", None)
    ensures v3Enabled && r.connection.Some? ==>
      r.connection.value == (if WantsWebSocket(upgrade, connection) then DuplexSocket else EventStream)
  {
    if !v3Enabled then Reply(Some(StatusServiceUnavailable), "", None)
    else if WantsWebSocket(upgrade, connection) then
      if upgradeError.Some? then Reply(Some(StatusBadRequest), upgradeError.value, None)
      else if constructError.Some? then Reply(Some(StatusBadRequest), constructError.value, None)
      else Reply(None, "", Some(DuplexSocket))
    else
      if constructError.Some? then Reply(Some(StatusBadRequest), constructError.value, None)
      else Reply(None, "", Some(EventStream))
  }

  /** A connection is made, and tracked, exactly when V3 is on and nothing failed on the chosen path. */
  lemma HandleV3Connects(v3Enabled: bool, upgrade: string, connection: string,
                         upgradeError: Option<string>, constructError: Option<string>)
    ensures HandleV3(v3Enabled, upgrade, connection, upgradeError, constructError).connection.Some? <==>
      v3Enabled && constructError.None? && (WantsWebSocket(upgrade, connection) ==> upgradeError.None?)
  {
  }

  /**
   * A construction failure makes the handler set status 400 with the error
   * text as the body, on either transport. (On the duplex path this happens
   * inside the upgrade callback; what the client then receives is up to the
   * upgrader.)
   */
  lemma ConstructionFailure(upgrade: string, connection: string, err: string)
    ensures HandleV3(true, upgrade, connection, None, Some(err)) == Reply(Some(StatusBadRequest), err, None)
  {
  }

  /** The v1 handler: the same gate and transport choice, with the upgrader's failure as a 400. */
  function HandleV1(v1Enabled: bool, upgrade: string, connection: string, upgradeError: Option<string>): (r: Reply)
    ensures !v1Enabled ==> r.status == Some(StatusServiceUnavailable) && r.connection.None?
  {
    if !v1Enabled then Reply(Some(StatusServiceUnavailable), "", None)
    else if WantsWebSocket(upgrade, connection) then
      if upgradeError.Some? then Reply(Some(StatusBadRequest), upgradeError.value, None)
      else Reply(None, "", Some(DuplexSocket))
    else Reply(None, "", Some(EventStream))
  }

  /** Both routes choose the transport by the same rule. */
  lemma SameTransportRule(upgrade: string, connection: string)
    ensures HandleV1(true, upgrade, connection, None).connection ==
            HandleV3(true, upgrade, connection, None, None).connection
  {
  }
}
