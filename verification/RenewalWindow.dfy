/** The browser's trust in its clearance against the server's acceptance of the cookie. */
module RenewalWindow {
  import opened Common
  import Clearance
  import Session

  /** The first instant at which the server refuses a cookie issued at `issued`. */
  function WindowEnd(issued: nat, ttl: nat): nat { (issued / 1000 + ttl + 1) * 1000 }

  /** Whether the page still trusts its clearance at `t`. */
  predicate Trusts(p: Clearance.Page, t: int) { !Clearance.IsExpired(p.(now := t)) }

  /** The server's window, in milliseconds. */
  lemma ServerWindow(x: Session.Codec, key: Session.Secret, ttl: nat, ip: Session.Ip, nonce: seq<byte>, issued: nat, t: nat)
    requires Session.Good(x) && |nonce| == Session.NONCE_LEN
    ensures Session.VerifyCookie(x, key, Session.Cookie(x, key, ttl, ip, nonce, issued), ip, t).Accepted? <==>
            t < WindowEnd(issued, ttl)
  {
  }

  /**
   A renewal whose cookie was issued at `issued` and whose reply arrived at the page's `now`: an
   instant at which the page still trusts a cookie that the server refuses lies less than the
   latency of the reply beyond the server's window.
   */
  lemma OvershootBelowLatency(
      x: Session.Codec, key: Session.Secret, ttl: nat, ip: Session.Ip, nonce: seq<byte>, issued: nat,
      p: Clearance.Page, again: seq<seq<Clearance.Id>>, t: nat)
    requires Session.Good(x) && |nonce| == Session.NONCE_LEN
    requires issued <= p.now
    requires Trusts(Clearance.AfterRenewOk(p, ttl, again), t)
    requires !Session.VerifyCookie(x, key, Session.Cookie(x, key, ttl, ip, nonce, issued), ip, t).Accepted?
    ensures 0 <= t - WindowEnd(issued, ttl) < p.now - issued
  {
    ServerWindow(x, key, ttl, ip, nonce, issued, t);
    Clearance.ReleaseEffect(p.(loadedAt := p.now, ttl := ttl), again, false);
  }

  /** A page, whatever its anchor, trusts a cookie only while the server accepts it. */
  ghost predicate TrustIsSafe(
      x: Session.Codec, key: Session.Secret, ttl: nat, ip: Session.Ip, nonce: seq<byte>, issued: nat, p: Clearance.Page) {
    forall t: nat :: p.loadedAt <= t && Trusts(p, t) ==>
      Session.VerifyCookie(x, key, Session.Cookie(x, key, ttl, ip, nonce, issued), ip, t).Accepted?
  }

  /** Trust stays inside the server's window exactly when its anchor is no later than the next whole second. */
  lemma SafeIffAnchoredEarly(
      x: Session.Codec, key: Session.Secret, ttl: nat, ip: Session.Ip, nonce: seq<byte>, issued: nat, p: Clearance.Page)
    requires Session.Good(x) && |nonce| == Session.NONCE_LEN
    requires p.ttl == ttl > 0 && issued <= p.loadedAt
    ensures TrustIsSafe(x, key, ttl, ip, nonce, issued, p) <==> p.loadedAt <= (issued / 1000 + 1) * 1000
  {
    forall t: nat ensures Session.VerifyCookie(x, key, Session.Cookie(x, key, ttl, ip, nonce, issued), ip, t).Accepted?
                     <==> t < WindowEnd(issued, ttl) {
      ServerWindow(x, key, ttl, ip, nonce, issued, t);
    }
    if p.loadedAt > (issued / 1000 + 1) * 1000 {
      var t: nat := p.loadedAt + ttl * 1000 - 1;
      assert Trusts(p, t) && t >= WindowEnd(issued, ttl);
    }
  }

  /** After a renewal: exactly when the reply came by the next whole second. */
  lemma NoOvershootIffPrompt(
      x: Session.Codec, key: Session.Secret, ttl: nat, ip: Session.Ip, nonce: seq<byte>, issued: nat,
      p: Clearance.Page, again: seq<seq<Clearance.Id>>)
    requires Session.Good(x) && |nonce| == Session.NONCE_LEN
    requires issued <= p.now && ttl > 0
    ensures TrustIsSafe(x, key, ttl, ip, nonce, issued, Clearance.AfterRenewOk(p, ttl, again))
            <==> p.now <= (issued / 1000 + 1) * 1000
  {
    Clearance.ReleaseEffect(p.(loadedAt := p.now, ttl := ttl), again, false);
    SafeIffAnchoredEarly(x, key, ttl, ip, nonce, issued, Clearance.AfterRenewOk(p, ttl, again));
  }

  /**
   Before any renewal the anchor is the page load, which the script calls conservative: it is so
   exactly when the page was loaded by the next whole second after its cookie was issued.
   */
  lemma PageLoadAnchorIsSafeIffPrompt(
      x: Session.Codec, key: Session.Secret, ttl: nat, ip: Session.Ip, nonce: seq<byte>, issued: nat, start: nat)
    requires Session.Good(x) && |nonce| == Session.NONCE_LEN
    requires issued <= start && ttl > 0
    ensures TrustIsSafe(x, key, ttl, ip, nonce, issued, Clearance.Boot(start, ttl))
            <==> start <= (issued / 1000 + 1) * 1000
  {
    SafeIffAnchoredEarly(x, key, ttl, ip, nonce, issued, Clearance.Boot(start, ttl));
  }
}
