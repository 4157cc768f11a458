/** The ids `HookManager.register` hands out: plugin id, event name and time stamp, joined by colons. */
module HookIds {
  import opened HookHandlers

  /** The wire name of an event, as the part before and the part after its colon. */
  function NameParts(e: HookEvent): (string, string) {
    match e
    case SessionCreated => ("session", "created")
    case SessionStarting => ("session", "starting")
    case SessionReady => ("session", "ready")
    case SessionQr => ("session", "qr")
    case SessionDisconnected => ("session", "disconnected")
    case SessionError => ("session", "error")
    case SessionDeleted => ("session", "deleted")
    case MessageReceived => ("message", "received")
    case MessageSending => ("message", "sending")
    case MessageSent => ("message", "sent")
    case MessageFailed => ("message", "failed")
    case MessageAck => ("message", "ack")
    case WebhookBefore => ("webhook", "before")
    case WebhookQueued => ("webhook", "queued")
    case WebhookDelivered => ("webhook", "delivered")
    case WebhookAfter => ("webhook", "after")
    case WebhookError => ("webhook", "error")
    case IngressError => ("ingress", "error")
  }

  function HookId(pluginId: string, event: HookEvent, stamp: string): string {
    var (kind, what) := NameParts(event);
    pluginId + ":" + kind + ":" + what + ":" + stamp
  }

  predicate NoColon(s: string) {
    ':' !in s
  }

  lemma NamesHaveOneColon(e: HookEvent)
    ensures NoColon(NameParts(e).0) && NoColon(NameParts(e).1)
  {
    match e case _ =>
  }

  /** The first letters and the lengths of its two parts tell the events apart. */
  lemma NamesDiffer(e: HookEvent, f: HookEvent)
    requires NameParts(e) == NameParts(f)
    ensures e == f
  {
    var (a, b) := NameParts(e);
    var (c, d) := NameParts(f);
    assert a[0] == c[0] && |b| == |d| && b[0] == d[0] && b[|b| - 1] == d[|d| - 1] && b[1] == d[1];
  }

  /** A string splits at its last colon in one way only. */
  lemma LastColonIsUnique(a: string, b: string, c: string, d: string)
    requires NoColon(b) && NoColon(d) && a + ":" + b == c + ":" + d
    ensures a == c && b == d
  {
    var s, t := a + ":" + b, c + ":" + d;
    assert s[|a|] == ':' && t[|c|] == ':';
    if |a| == |c| {
      assert a == s[..|a|] == t[..|c|] == c;
      assert b == s[|a| + 1..] == t[|c| + 1..] == d;
    }
  }

  /** Two hook ids collide exactly when plugin, event and time stamp are the same. */
  lemma IdsCollideIff(p: string, e: HookEvent, s: string, q: string, f: HookEvent, t: string)
    requires NoColon(s) && NoColon(t)
    ensures HookId(p, e, s) == HookId(q, f, t) <==> p == q && e == f && s == t
  {
    if HookId(p, e, s) == HookId(q, f, t) {
      var (a, b) := NameParts(e);
      var (c, d) := NameParts(f);
      NamesHaveOneColon(e);
      NamesHaveOneColon(f);
      LastColonIsUnique(p + ":" + a + ":" + b, s, q + ":" + c + ":" + d, t);
      LastColonIsUnique(p + ":" + a, b, q + ":" + c, d);
      LastColonIsUnique(p, a, q, c);
      NamesDiffer(e, f);
    }
  }

  /** The id of a hook as text. */
  lemma IdText()
    ensures HookId("crm", MessageSending, "1700") == "crm:message:sending:1700"
  {
    assert NameParts(MessageSending) == ("message", "sending");
    assert "crm" + ":" + "message" + ":" + "sending" + ":" + "1700" == "crm:message:sending:1700";
  }
}
