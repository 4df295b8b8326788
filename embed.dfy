/**
 The embed step of the bootstrap script: when the mount element `kami-main`
 exists, the UI component is constructed once with a parameter record read
 from three cookies, the window's inner width and the socket URL. The
 component itself, its ports and the document are not part of this model.
 */
module Embed {
  import opened Wrappers
  import Cookie
  import Socket

  const UserIdCookie: string := "user-id"
  const LocationIdCookie: string := "location-id"
  const KeyCookie: string := "elm-key"

  /** The record `{uid, loc, key, width, socketUrl}` handed to the component. */
  datatype EmbedFlags = EmbedFlags(uid: string, loc: string, key: string, width: int, socketUrl: string)

  function Flags(decodedCookie: string, width: int, protocol: string, host: string): EmbedFlags {
    EmbedFlags(
      Cookie.CookieValue(decodedCookie, UserIdCookie),
      Cookie.CookieValue(decodedCookie, LocationIdCookie),
      Cookie.CookieValue(decodedCookie, KeyCookie),
      width,
      Socket.SocketUrl(protocol, host))
  }

  /** The parameters the component is constructed with, or `None` when the
      mount element is absent and nothing is constructed. */
  function Bootstrap(mountPresent: bool, decodedCookie: string, width: int, protocol: string, host: string): (r: Option<EmbedFlags>)
    ensures r.Some? <==> mountPresent
    ensures r.Some? ==> r.value == EmbedFlags(
      Cookie.CookieValue(decodedCookie, UserIdCookie),
      Cookie.CookieValue(decodedCookie, LocationIdCookie),
      Cookie.CookieValue(decodedCookie, KeyCookie),
      width,
      Socket.SocketUrl(protocol, host))
    ensures r.Some? ==> Cookie.Separator !in r.value.uid + r.value.loc + r.value.key
  {
    if mountPresent then
      var f := Flags(decodedCookie, width, protocol, host);
      Cookie.CookieValueHasNoSeparator(decodedCookie, UserIdCookie);
      Cookie.CookieValueHasNoSeparator(decodedCookie, LocationIdCookie);
      Cookie.CookieValueHasNoSeparator(decodedCookie, KeyCookie);
      Some(f)
    else None
  }

  /** The cookie header a browser writes for `user-id=42`, `location-id=7`
      and `elm-key=abc`: `user-id=42; location-id=7; elm-key=abc`, each
      segment written as its leading spaces, `name=` and the value. */
  const ExampleSegments: seq<string> := [
    "" + (UserIdCookie + "=") + "42",
    " " + (LocationIdCookie + "=") + "7",
    " " + (KeyCookie + "=") + "abc"]

  function ExampleCookie(): string {
    Cookie.Join(ExampleSegments, Cookie.Separator)
  }

  /** The joined segments are the header text itself. */
  lemma ExampleCookieIsHeader()
    ensures ExampleCookie() == "user-id=42; location-id=7; elm-key=abc"
  {
    Cookie.JoinOfThree(ExampleSegments[0], ExampleSegments[1], ExampleSegments[2], Cookie.Separator);
    assert ExampleSegments == [ExampleSegments[0], ExampleSegments[1], ExampleSegments[2]];
    assert ExampleSegments[0] == "user-id=42";
    assert ExampleSegments[1] == " location-id=7";
    assert ExampleSegments[2] == " elm-key=abc";
    HeaderText();
  }

  lemma HeaderText()
    ensures "user-id=42" + [';'] + (" location-id=7" + [';'] + " elm-key=abc") == "user-id=42; location-id=7; elm-key=abc"
  {
  }

  lemma ExampleSegmentsSeparatorFree()
    ensures forall i :: 0 <= i < |ExampleSegments| ==> Cookie.Separator !in ExampleSegments[i]
  {
    assert Cookie.Separator !in ExampleSegments[0];
    assert Cookie.Separator !in ExampleSegments[1];
    assert Cookie.Separator !in ExampleSegments[2];
  }

  lemma ExampleUserId()
    ensures Cookie.CookieValue(ExampleCookie(), UserIdCookie) == "42"
  {
    var name := UserIdCookie + "=";
    ExampleSegmentsSeparatorFree();
    assert Cookie.Matches(ExampleSegments[0], name) && Cookie.ValueAfter(ExampleSegments[0], name) == "42" by {
      Cookie.MatchingSegment("", name, "42");
    }
    FirstOfThree(ExampleSegments[0], ExampleSegments[1], ExampleSegments[2], name);
    assert ExampleSegments == [ExampleSegments[0], ExampleSegments[1], ExampleSegments[2]];
    Cookie.CookieValueOfSegments(ExampleSegments, UserIdCookie, 0);
  }

  lemma ExampleLocationId()
    ensures Cookie.CookieValue(ExampleCookie(), LocationIdCookie) == "7"
  {
    var name := LocationIdCookie + "=";
    ExampleSegmentsSeparatorFree();
    assert !Cookie.Matches(ExampleSegments[0], name) by {
      Cookie.OtherNameDoesNotMatch("", UserIdCookie + "=", "42", name);
    }
    assert Cookie.Matches(ExampleSegments[1], name) && Cookie.ValueAfter(ExampleSegments[1], name) == "7" by {
      Cookie.MatchingSegment(" ", name, "7");
    }
    SecondOfThree(ExampleSegments[0], ExampleSegments[1], ExampleSegments[2], name);
    assert ExampleSegments == [ExampleSegments[0], ExampleSegments[1], ExampleSegments[2]];
    Cookie.CookieValueOfSegments(ExampleSegments, LocationIdCookie, 1);
  }

  lemma ExampleKey()
    ensures Cookie.CookieValue(ExampleCookie(), KeyCookie) == "abc"
  {
    var name := KeyCookie + "=";
    ExampleSegmentsSeparatorFree();
    assert !Cookie.Matches(ExampleSegments[0], name) by {
      Cookie.OtherNameDoesNotMatch("", UserIdCookie + "=", "42", name);
    }
    assert !Cookie.Matches(ExampleSegments[1], name) by {
      Cookie.OtherNameDoesNotMatch(" ", LocationIdCookie + "=", "7", name);
    }
    assert Cookie.Matches(ExampleSegments[2], name) && Cookie.ValueAfter(ExampleSegments[2], name) == "abc" by {
      Cookie.MatchingSegment(" ", name, "abc");
    }
    ThirdOfThree(ExampleSegments[0], ExampleSegments[1], ExampleSegments[2], name);
    assert ExampleSegments == [ExampleSegments[0], ExampleSegments[1], ExampleSegments[2]];
    Cookie.CookieValueOfSegments(ExampleSegments, KeyCookie, 2);
  }

  lemma FirstOfThree(a: string, b: string, c: string, name: string)
    requires Cookie.Matches(a, name)
    ensures Cookie.FirstMatchAt([a, b, c], name, 0)
  {
  }

  lemma SecondOfThree(a: string, b: string, c: string, name: string)
    requires !Cookie.Matches(a, name) && Cookie.Matches(b, name)
    ensures Cookie.FirstMatchAt([a, b, c], name, 1)
  {
  }

  lemma ThirdOfThree(a: string, b: string, c: string, name: string)
    requires !Cookie.Matches(a, name) && !Cookie.Matches(b, name) && Cookie.Matches(c, name)
    ensures Cookie.FirstMatchAt([a, b, c], name, 2)
  {
  }

  /** The whole startup on one concrete page: the three cookies above,
      width 1024, and `app.test` served over `https:`. */
  lemma EndToEndExample()
    ensures Bootstrap(true, ExampleCookie(), 1024, "https:", "app.test")
         == Some(EmbedFlags("42", "7", "abc", 1024, "wss://" + "app.test" + "/socket/websocket"))
  {
    ExampleUserId();
    ExampleLocationId();
    ExampleKey();
    Socket.SocketUrlForms("https:", "app.test");
  }

  /** Without the mount element nothing is constructed. */
  lemma NoMountNoEmbed(decodedCookie: string, width: int, protocol: string, host: string)
    ensures Bootstrap(false, decodedCookie, width, protocol, host) == None
  {
  }
}
