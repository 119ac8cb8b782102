/**
 * The opening handshake of `WebSocketServer::doHandshake` (the server side of
 * section 4.2.2 of RFC 6455): the request is split into lines, each line is
 * right-trimmed and matched against a `Name: value` pattern, and the reply
 * carries the accept key derived from `Sec-WebSocket-Key`.
 */
module Handshake {
  import opened Base

  /** The fixed GUID of section 1.3 of RFC 6455, appended to the client's key. */
  const Guid := "258EAFA5-E914-47DA-95CA-C5AB0DC85B11"
  const KeyHeader := "Sec-WebSocket-Key"
  const Crlf := "\r\n"

  // ---------------------------------------------------------------------------
  // preg_split("/\r\n/", ...)
  // ---------------------------------------------------------------------------

  /** Whether `s` contains the two-character separator CR LF. */
  predicate HasCrlf(s: string)
  {
    exists i :: 0 <= i < |s| - 1 && s[i] == '\r' && s[i + 1] == '\n'
  }

  /**
   * `preg_split("/\r\n/", $s)`: the pieces between CR LF separators; there
   * is always at least one, and the first is a prefix of `s`.
   */
  function SplitLines(s: string): (lines: seq<string>)
    ensures |lines| >= 1 && lines[0] <= s
    decreases |s|
  {
    if |s| < 2 then [s]
    else if s[0] == '\r' && s[1] == '\n' then [""] + SplitLines(s[2..])
    else
      var rest := SplitLines(s[1..]);
      [[s[0]] + rest[0]] + rest[1..]
  }

  /** `implode("\r\n", $lines)`: the inverse of the split. */
  function JoinLines(lines: seq<string>): string
    decreases |lines|
  {
    if |lines| == 0 then ""
    else if |lines| == 1 then lines[0]
    else lines[0] + Crlf + JoinLines(lines[1..])
  }

  /** Splitting loses nothing: joining the pieces with CR LF gives the request back. */
  lemma {:induction false} SplitLinesJoin(s: string)
    ensures JoinLines(SplitLines(s)) == s
    decreases |s|
  {
    if |s| < 2 {
    } else if s[0] == '\r' && s[1] == '\n' {
      SplitLinesJoin(s[2..]);
      var rest := SplitLines(s[2..]);
      assert SplitLines(s) == [""] + rest;
      assert ([""] + rest)[1..] == rest;
      assert s == Crlf + s[2..];
    } else {
      SplitLinesJoin(s[1..]);
      var rest := SplitLines(s[1..]);
      var lines := [[s[0]] + rest[0]] + rest[1..];
      if |rest| > 1 {
        assert lines[1..] == rest[1..];
        ConcatAssociates([s[0]], rest[0], Crlf + JoinLines(rest[1..]));
      }
      assert s == [s[0]] + s[1..];
    }
  }

  /** No piece of the split contains the separator. */
  lemma {:induction false} SplitLinesHaveNoCrlf(s: string)
    ensures forall k :: 0 <= k < |SplitLines(s)| ==> !HasCrlf(SplitLines(s)[k])
    decreases |s|
  {
    if |s| < 2 {
    } else if s[0] == '\r' && s[1] == '\n' {
      SplitLinesHaveNoCrlf(s[2..]);
      var rest := SplitLines(s[2..]);
      forall k | 0 <= k < |SplitLines(s)| ensures !HasCrlf(SplitLines(s)[k]) {
        if k > 0 { assert SplitLines(s)[k] == rest[k - 1]; }
      }
    } else {
      SplitLinesHaveNoCrlf(s[1..]);
      var rest := SplitLines(s[1..]);
      var first := [s[0]] + rest[0];
      // rest[0] starts with s[1] unless it is empty, and s[0] s[1] is not CR LF
      assert |rest[0]| > 0 ==> rest[0][0] == s[1];
      forall i | 0 <= i < |first| - 1 ensures !(first[i] == '\r' && first[i + 1] == '\n') {
        if i > 0 {
          assert first[i] == rest[0][i - 1] && first[i + 1] == rest[0][i];
        }
      }
      forall k | 0 <= k < |SplitLines(s)| ensures !HasCrlf(SplitLines(s)[k]) {
        if k > 0 { assert SplitLines(s)[k] == rest[k]; }
      }
    }
  }

  /** A line free of CR splits off as the first piece of whatever follows it. */
  lemma {:induction false} SplitLinesAfter(line: string, more: string)
    requires '\r' !in line
    ensures SplitLines(line + Crlf + more) == [line] + SplitLines(more)
    decreases |line|
  {
    var s := line + Crlf + more;
    if line == [] {
      assert s[2..] == more;
    } else {
      assert s[1..] == line[1..] + Crlf + more;
      SplitLinesAfter(line[1..], more);
      assert [s[0]] + line[1..] == line;
    }
  }

  // ---------------------------------------------------------------------------
  // chop
  // ---------------------------------------------------------------------------

  /** The characters `chop` (`rtrim`) strips by default: space, tab, LF, CR, NUL, vertical tab. */
  predicate IsChopChar(c: char)
  {
    c == ' ' || c == '\t' || c == '\n' || c == '\r' || c == '\0' || c == '\U{B}'
  }

  /**
   * `chop($line)`: the longest prefix of `line` that does not end in a chop
   * character; everything removed is a chop character.
   */
  function Chop(line: string): (r: string)
    ensures r <= line
    ensures |r| == 0 || !IsChopChar(r[|r| - 1])
    ensures forall i :: |r| <= i < |line| ==> IsChopChar(line[i])
    decreases |line|
  {
    if |line| > 0 && IsChopChar(line[|line| - 1]) then Chop(line[..|line| - 1]) else line
  }

  // ---------------------------------------------------------------------------
  // preg_match('/\A(\S+): (.*)\z/', ...)
  // ---------------------------------------------------------------------------

  /** PCRE's `\s` outside Unicode mode: space, HT, LF, VT, FF, CR. */
  predicate IsSpace(c: char)
  {
    c == ' ' || c == '\t' || c == '\n' || c == '\U{B}' || c == '\U{C}' || c == '\r'
  }

  /** Index of the first `\s` character of `s`, or `|s|` when there is none. */
  function FirstSpace(s: string): (k: nat)
    ensures k <= |s|
    ensures forall i :: 0 <= i < k ==> !IsSpace(s[i])
    ensures k < |s| ==> IsSpace(s[k])
    decreases |s|
  {
    if s == [] || IsSpace(s[0]) then 0 else 1 + FirstSpace(s[1..])
  }

  /**
   * What a match of `\A(\S+): (.*)\z` means: a non-empty name without
   * whitespace, a colon and one space, then a value without LF (`.` does not
   * match a newline), up to the very end of the line.
   */
  predicate IsHeaderLine(line: string, name: string, value: string)
  {
    && |name| > 0
    && (forall i :: 0 <= i < |name| ==> !IsSpace(name[i]))
    && '\n' !in value
    && line == name + ": " + value
  }

  /**
   * The two capture groups of the header pattern. The greedy `\S+` must stop
   * right before the first whitespace, which therefore has to be the space
   * after the colon.
   */
  function MatchHeader(line: string): Option<(string, string)>
  {
    var k := FirstSpace(line);
    if 2 <= k < |line| && line[k - 1] == ':' && line[k] == ' ' && '\n' !in line[k + 1..]
    then Some((line[..k - 1], line[k + 1..]))
    else None
  }

  /** The matcher captures `(name, value)` exactly when the line is that header line. */
  lemma MatchHeaderIsHeaderLine(line: string, name: string, value: string)
    ensures MatchHeader(line) == Some((name, value)) <==> IsHeaderLine(line, name, value)
  {
    if IsHeaderLine(line, name, value) {
      var k := |name| + 1;
      assert line[k] == ' ' && IsSpace(line[k]);
      forall i | 0 <= i < k ensures !IsSpace(line[i]) {
        if i < |name| { assert line[i] == name[i]; } else { assert line[i] == ':'; }
      }
      assert FirstSpace(line) == k;
      assert line[..k - 1] == name && line[k + 1..] == value;
    }
    if MatchHeader(line) == Some((name, value)) {
      var k := FirstSpace(line);
      assert line == line[..k - 1] + ": " + line[k + 1..];
    }
  }

  // ---------------------------------------------------------------------------
  // The $headers dictionary
  // ---------------------------------------------------------------------------

  /** The header a raw request line contributes: its `chop`ped text, matched. */
  function Field(line: string): Option<(string, string)>
  {
    MatchHeader(Chop(line))
  }

  /** Whether a raw request line contributes a header called `name`. */
  predicate Declares(line: string, name: string)
  {
    Field(line).Some? && Field(line).value.0 == name
  }

  /** `$headers` after the `foreach` has visited `lines` in order. */
  function HeadersOf(lines: seq<string>): map<string, string>
    decreases |lines|
  {
    if lines == [] then map[]
    else
      var headers := HeadersOf(lines[..|lines| - 1]);
      match Field(lines[|lines| - 1])
      case Some((name, value)) => headers[name := value]
      case None => headers
  }

  /** A name is a key exactly when some line declares it; keys are case-sensitive. */
  lemma {:induction false} HeadersOfKeys(lines: seq<string>, name: string)
    ensures name in HeadersOf(lines) <==> exists i :: 0 <= i < |lines| && Declares(lines[i], name)
    decreases |lines|
  {
    if lines != [] {
      var init := lines[..|lines| - 1];
      HeadersOfKeys(init, name);
      if exists i :: 0 <= i < |init| && Declares(init[i], name) {
        var i :| 0 <= i < |init| && Declares(init[i], name);
        assert Declares(lines[i], name);
      }
      if exists i :: 0 <= i < |lines| && Declares(lines[i], name) {
        var i :| 0 <= i < |lines| && Declares(lines[i], name);
        if i < |init| { assert Declares(init[i], name); }
      }
    }
  }

  /** The value stored under a name is the one on the last line that declares it. */
  lemma {:induction false} HeadersOfLastWins(lines: seq<string>, i: nat, name: string, value: string)
    requires i < |lines| && Field(lines[i]) == Some((name, value))
    requires forall j :: i < j < |lines| ==> !Declares(lines[j], name)
    ensures name in HeadersOf(lines) && HeadersOf(lines)[name] == value
    decreases |lines|
  {
    var init := lines[..|lines| - 1];
    if i < |lines| - 1 {
      assert !Declares(lines[|lines| - 1], name);
      forall j | i < j < |init| ensures !Declares(init[j], name) {
        assert init[j] == lines[j];
      }
      HeadersOfLastWins(init, i, name, value);
    }
  }

  lemma HeadersOfStep(lines: seq<string>, i: nat)
    requires i < |lines|
    ensures HeadersOf(lines[..i + 1]) ==
      match Field(lines[i])
      case Some((name, value)) => HeadersOf(lines[..i])[name := value]
      case None => HeadersOf(lines[..i])
  {
    assert lines[..i + 1][..i] == lines[..i];
  }

  /**
   * The `foreach` of `doHandshake`: split the request on CR LF, `chop` each
   * line, and store every matching header, a later duplicate overwriting an
   * earlier one.
   */
  method ParseHeaders(request: string) returns (headers: map<string, string>)
    ensures headers == HeadersOf(SplitLines(request))
  {
    var lines := SplitLines(request);
    headers := map[];
    for i := 0 to |lines|
      invariant headers == HeadersOf(lines[..i])
    {
      var line := Chop(lines[i]);
      var matches := MatchHeader(line);
      HeadersOfStep(lines, i);
      if matches.Some? {
        headers := headers[matches.value.0 := matches.value.1];
      }
    }
    assert lines[..|lines|] == lines;
  }

  // ---------------------------------------------------------------------------
  // The reply
  // ---------------------------------------------------------------------------

  /** `$headers['Sec-WebSocket-Key']`; an absent key reads as null, which concatenates as "". */
  function SecKey(headers: map<string, string>): string
  {
    if KeyHeader in headers then headers[KeyHeader] else ""
  }

  const StatusLine := "HTTP/1.1 101 Web Socket Protocol Handshake"
  const UpgradeLine := "Upgrade: websocket"
  const ConnectionLine := "Connection: Upgrade"

  /**
   * The 101 reply `doHandshake` writes, each header line followed by CR LF
   * and the block closed by an empty line; there is no space after
   * `Sec-WebSocket-Accept:`.
   */
  function Response(host: string, port: string, accept: string): string
  {
    StatusLine + Crlf +
    UpgradeLine + Crlf +
    ConnectionLine + Crlf +
    ("WebSocket-Origin: " + host) + Crlf +
    ("WebSocket-Location: ws://" + host + ":" + port + "/demo/shout.php") + Crlf +
    ("Sec-WebSocket-Accept:" + accept) + Crlf +
    Crlf
  }

  /**
   * The reply for `request`. `digest` stands for
   * `base64_encode(pack('H*', sha1(...)))`, which is not part of this model.
   */
  function Reply(request: string, host: string, port: string, digest: string -> string): string
  {
    Response(host, port, digest(SecKey(HeadersOf(SplitLines(request))) + Guid))
  }

  /** A line free of CR is a single piece. */
  lemma {:induction false} SplitLinesWithoutCr(line: string)
    requires '\r' !in line
    ensures SplitLines(line) == [line]
    decreases |line|
  {
    if |line| >= 2 {
      SplitLinesWithoutCr(line[1..]);
      assert [line[0]] + line[1..] == line;
    }
  }

  /** Lines free of CR, joined with CR LF, split back into the same lines. */
  lemma {:induction false} SplitJoinLines(lines: seq<string>)
    requires |lines| >= 1
    requires forall i :: 0 <= i < |lines| ==> '\r' !in lines[i]
    ensures SplitLines(JoinLines(lines)) == lines
    decreases |lines|
  {
    if |lines| == 1 {
      SplitLinesWithoutCr(lines[0]);
    } else {
      SplitJoinLines(lines[1..]);
      SplitLinesAfter(lines[0], JoinLines(lines[1..]));
      assert [lines[0]] + lines[1..] == lines;
    }
  }

  /** Appending a line to a joined list adds a separator and the line. */
  lemma {:induction false} JoinSnoc(lines: seq<string>, last: string)
    requires |lines| >= 1
    ensures JoinLines(lines + [last]) == JoinLines(lines) + Crlf + last
    decreases |lines|
  {
    if |lines| == 1 {
      assert (lines + [last])[1..] == [last];
    } else {
      JoinSnoc(lines[1..], last);
      assert (lines + [last])[1..] == lines[1..] + [last];
      ConcatAssociates(lines[0] + Crlf, JoinLines(lines[1..]), Crlf + last);
      ConcatAssociates(lines[0] + Crlf + JoinLines(lines[1..]), Crlf, last);
      ConcatAssociates(JoinLines(lines[1..]), Crlf, last);
    }
  }

  /** Eight lines joined with CR LF, written out left to right. */
  lemma JoinEight(l0: string, l1: string, l2: string, l3: string, l4: string, l5: string, l6: string, l7: string)
    ensures JoinLines([l0, l1, l2, l3, l4, l5, l6, l7]) ==
      l0 + Crlf + l1 + Crlf + l2 + Crlf + l3 + Crlf + l4 + Crlf + l5 + Crlf + l6 + Crlf + l7
  {
    assert JoinLines([l0]) == l0;
    JoinSnoc([l0], l1);
    assert [l0] + [l1] == [l0, l1];
    JoinSnoc([l0, l1], l2);
    assert [l0, l1] + [l2] == [l0, l1, l2];
    JoinSnoc([l0, l1, l2], l3);
    assert [l0, l1, l2] + [l3] == [l0, l1, l2, l3];
    JoinSnoc([l0, l1, l2, l3], l4);
    assert [l0, l1, l2, l3] + [l4] == [l0, l1, l2, l3, l4];
    JoinSnoc([l0, l1, l2, l3, l4], l5);
    assert [l0, l1, l2, l3, l4] + [l5] == [l0, l1, l2, l3, l4, l5];
    JoinSnoc([l0, l1, l2, l3, l4, l5], l6);
    assert [l0, l1, l2, l3, l4, l5] + [l6] == [l0, l1, l2, l3, l4, l5, l6];
    JoinSnoc([l0, l1, l2, l3, l4, l5, l6], l7);
    assert [l0, l1, l2, l3, l4, l5, l6] + [l7] == [l0, l1, l2, l3, l4, l5, l6, l7];
  }

  lemma FixedLinesHaveNoCr()
    ensures '\r' !in StatusLine && '\r' !in UpgradeLine && '\r' !in ConnectionLine
  {
  }

  lemma FixedPrefixesHaveNoCr()
    ensures '\r' !in "WebSocket-Origin: " && '\r' !in "WebSocket-Location: ws://" && '\r' !in ":"
    ensures '\r' !in "/demo/shout.php" && '\r' !in "Sec-WebSocket-Accept:"
  {
  }

  lemma NoCrConcat(a: string, b: string)
    requires '\r' !in a && '\r' !in b
    ensures '\r' !in a + b
  {
  }

  /** The reply, read back line by line, is the status line, five headers and an empty line. */
  lemma ResponseLines(host: string, port: string, accept: string)
    requires '\r' !in host && '\r' !in port && '\r' !in accept
    ensures SplitLines(Response(host, port, accept)) == [
      StatusLine,
      UpgradeLine,
      ConnectionLine,
      "WebSocket-Origin: " + host,
      "WebSocket-Location: ws://" + host + ":" + port + "/demo/shout.php",
      "Sec-WebSocket-Accept:" + accept,
      "", ""]
  {
    var l3 := "WebSocket-Origin: " + host;
    var l4 := "WebSocket-Location: ws://" + host + ":" + port + "/demo/shout.php";
    var l5 := "Sec-WebSocket-Accept:" + accept;
    var lines := [StatusLine, UpgradeLine, ConnectionLine, l3, l4, l5, "", ""];
    JoinEight(StatusLine, UpgradeLine, ConnectionLine, l3, l4, l5, "", "");
    var head := StatusLine + Crlf + UpgradeLine + Crlf + ConnectionLine + Crlf + l3 + Crlf + l4 + Crlf + l5 + Crlf;
    assert head + "" + Crlf + "" == head + Crlf;
    assert Response(host, port, accept) == head + Crlf;
    FixedLinesHaveNoCr();
    FixedPrefixesHaveNoCr();
    NoCrConcat("WebSocket-Origin: ", host);
    NoCrConcat("WebSocket-Location: ws://", host);
    NoCrConcat("WebSocket-Location: ws://" + host, ":");
    NoCrConcat("WebSocket-Location: ws://" + host + ":", port);
    NoCrConcat("WebSocket-Location: ws://" + host + ":" + port, "/demo/shout.php");
    NoCrConcat("Sec-WebSocket-Accept:", accept);
    SplitJoinLines(lines);
  }

  /** The reply ends with the blank line that closes an HTTP header block. */
  lemma ResponseEndsWithBlankLine(host: string, port: string, accept: string)
    ensures var r := Response(host, port, accept); |r| >= 4 && r[|r| - 4..] == "\r\n\r\n"
  {
  }

  /**
   * `doHandshake` minus the socket write: the reply it writes for `request`,
   * with the accept value taken from the last `Sec-WebSocket-Key` line, or
   * from the empty key when there is none.
   */
  method DoHandshake(request: string, host: string, port: string, digest: string -> string)
    returns (reply: string)
    ensures reply == Reply(request, host, port, digest)
  {
    var headers := ParseHeaders(request);
    var secKey := SecKey(headers);
    var secAccept := digest(secKey + Guid);
    reply := Response(host, port, secAccept);
  }

  /** Without any `Sec-WebSocket-Key` line the accept value is derived from the GUID alone. */
  lemma ReplyWithoutKey(request: string, host: string, port: string, digest: string -> string)
    requires forall i :: 0 <= i < |SplitLines(request)| ==> !Declares(SplitLines(request)[i], KeyHeader)
    ensures Reply(request, host, port, digest) == Response(host, port, digest(Guid))
  {
    HeadersOfKeys(SplitLines(request), KeyHeader);
    assert "" + Guid == Guid;
  }

  /** The accept value is derived from the key on the last `Sec-WebSocket-Key` line. */
  lemma ReplyWithKey(request: string, i: nat, key: string, host: string, port: string, digest: string -> string)
    requires i < |SplitLines(request)| && Field(SplitLines(request)[i]) == Some((KeyHeader, key))
    requires forall j :: i < j < |SplitLines(request)| ==> !Declares(SplitLines(request)[j], KeyHeader)
    ensures Reply(request, host, port, digest) == Response(host, port, digest(key + Guid))
  {
    HeadersOfLastWins(SplitLines(request), i, KeyHeader, key);
  }
}
