/**
 The socket URL builder of the bootstrap script: the page's protocol picks
 the websocket scheme (`https:` gives `wss://`, anything else `ws://`), and
 the page's host (with its port, if any) and a fixed path follow it.
 */
module Socket {
  import opened Wrappers

  const SecureProtocol: string := "https:"
  const SecureScheme: string := "wss://"
  const PlainScheme: string := "ws://"
  const SocketPath: string := "/socket/websocket"

  function Scheme(protocol: string): string {
    if protocol == SecureProtocol then SecureScheme else PlainScheme
  }

  /** `getSocketUrl()` for a page served over `protocol` from `host`. */
  function SocketUrl(protocol: string, host: string): (url: string)
    ensures SecureScheme <= url <==> protocol == SecureProtocol
    ensures PlainScheme <= url <==> protocol != SecureProtocol
    ensures |url| >= |SocketPath| && url[|url| - |SocketPath|..] == SocketPath
  {
    var url := Scheme(protocol) + host + SocketPath;
    assert Scheme(protocol) <= url;
    assert url[2] == Scheme(protocol)[2];
    url
  }

  /** Reads a socket URL back: whether it is secure, and the host. */
  function ParseSocketUrl(url: string): Option<(bool, string)> {
    if |url| < |SocketPath| || url[|url| - |SocketPath|..] != SocketPath then None
    else
      var front := url[..|url| - |SocketPath|];
      if SecureScheme <= front then Some((true, front[|SecureScheme|..]))
      else if PlainScheme <= front then Some((false, front[|PlainScheme|..]))
      else None
  }

  /** The URL determines both the choice of scheme and the host. */
  lemma ParseSocketUrlRoundTrip(protocol: string, host: string)
    ensures ParseSocketUrl(SocketUrl(protocol, host)) == Some((protocol == SecureProtocol, host))
  {
    var scheme := Scheme(protocol);
    var url := SocketUrl(protocol, host);
    assert url[..|url| - |SocketPath|] == scheme + host;
    assert (scheme + host)[|scheme|..] == host;
  }

  /** Conversely, every URL the parser accepts is one the builder produces:
      `wss://` or `ws://`, then the host, then the fixed path. */
  lemma ParseSocketUrlSound(url: string)
    requires ParseSocketUrl(url).Some?
    ensures var (secure, host) := ParseSocketUrl(url).value;
      url == (if secure then SecureScheme else PlainScheme) + host + SocketPath
  {
    var front := url[..|url| - |SocketPath|];
    assert url == front + SocketPath;
    var (secure, host) := ParseSocketUrl(url).value;
    var scheme := if secure then SecureScheme else PlainScheme;
    assert front == scheme + host by {
      assert scheme <= front && host == front[|scheme|..];
      assert front == front[..|scheme|] + front[|scheme|..];
    }
  }

  /** Different hosts give different URLs under the same protocol. */
  lemma SocketUrlInjective(protocol: string, host1: string, host2: string)
    requires SocketUrl(protocol, host1) == SocketUrl(protocol, host2)
    ensures host1 == host2
  {
    ParseSocketUrlRoundTrip(protocol, host1);
    ParseSocketUrlRoundTrip(protocol, host2);
  }

  /** The two shapes of the URL: `wss://` exactly for `https:`, `ws://` for
      every other protocol, then the host and the fixed path. */
  lemma SocketUrlForms(protocol: string, host: string)
    ensures protocol == SecureProtocol ==> SocketUrl(protocol, host) == "wss://" + host + "/socket/websocket"
    ensures protocol != SecureProtocol ==> SocketUrl(protocol, host) == "ws://" + host + "/socket/websocket"
  {
  }
}
