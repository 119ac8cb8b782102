/**
 * The notification messages of `WebSocketServer`: the text of the
 * connection and chat notices, and the frames carrying their JSON encoding.
 */
module Notices {
  import opened Base
  import Frame

  /** The array `json_encode` turns into the payload: `message` and `message_type`. */
  datatype Notice = Notice(message: string, messageType: string)

  const ConnectionAckType := "chat-connection-ack"
  const ChatBoxType := "chat-box-html"

  const JoinedPrefix := "New client "
  const JoinedSuffix := " joined"
  const LeftPrefix := "Client "
  const LeftSuffix := " disconnected"

  /** The notice of `newConnectionACK`. */
  function JoinedNotice(address: string): Notice
  {
    Notice(JoinedPrefix + address + JoinedSuffix, ConnectionAckType)
  }

  /** The notice of `connectionDisconnectACK`. */
  function LeftNotice(address: string): Notice
  {
    Notice(LeftPrefix + address + LeftSuffix, ConnectionAckType)
  }

  /** The notice of `createChatBoxMessage`. */
  function ChatBoxNotice(user: string, text: string): Notice
  {
    Notice(user + ": " + text + "\n", ChatBoxType)
  }

  // ---------------------------------------------------------------------------
  // Reading the notices back
  // ---------------------------------------------------------------------------

  /** The address a "joined" message names, if `message` is one. */
  function JoinedAddress(message: string): Option<string>
  {
    var n := |JoinedPrefix| + |JoinedSuffix|;
    if n <= |message| && message[..|JoinedPrefix|] == JoinedPrefix && message[|message| - |JoinedSuffix|..] == JoinedSuffix
    then Some(message[|JoinedPrefix|..|message| - |JoinedSuffix|])
    else None
  }

  /** The address a "disconnected" message names, if `message` is one. */
  function LeftAddress(message: string): Option<string>
  {
    var n := |LeftPrefix| + |LeftSuffix|;
    if n <= |message| && message[..|LeftPrefix|] == LeftPrefix && message[|message| - |LeftSuffix|..] == LeftSuffix
    then Some(message[|LeftPrefix|..|message| - |LeftSuffix|])
    else None
  }

  /** Whether `s` contains the separator ": ". */
  predicate HasSeparator(s: string)
  {
    exists i :: 0 <= i < |s| - 1 && s[i] == ':' && s[i + 1] == ' '
  }

  /** Index of the first ": " in `s`, or `|s|` when there is none. */
  function SeparatorAt(s: string): (k: nat)
    ensures k <= |s|
    ensures k < |s| ==> k + 1 < |s| && s[k] == ':' && s[k + 1] == ' '
    ensures !HasSeparator(s[..if k < |s| then k + 1 else k])
    decreases |s|
  {
    if |s| < 2 then |s|
    else if s[0] == ':' && s[1] == ' ' then 0
    else
      var k := 1 + SeparatorAt(s[1..]);
      assert s[..if k < |s| then k + 1 else k] == [s[0]] + s[1..][..if k - 1 < |s| - 1 then k else k - 1];
      k
  }

  /** The user and the text of a chat line, split at its first ": ". */
  function ChatParts(message: string): Option<(string, string)>
  {
    if |message| == 0 || message[|message| - 1] != '\n' then None
    else
      var line := message[..|message| - 1];
      var k := SeparatorAt(line);
      if k < |line| then Some((line[..k], line[k + 2..])) else None
  }

  /** A "joined" message names the address it was built from and is never read as a departure. */
  lemma JoinedRoundTrip(address: string)
    ensures JoinedAddress(JoinedNotice(address).message) == Some(address)
    ensures LeftAddress(JoinedNotice(address).message) == None
  {
    var m := JoinedNotice(address).message;
    assert m[..|JoinedPrefix|] == JoinedPrefix;
    assert m[|m| - |JoinedSuffix|..] == JoinedSuffix;
    assert m[|JoinedPrefix|..|m| - |JoinedSuffix|] == address;
    if |LeftPrefix| + |LeftSuffix| <= |m| {
      assert m[0] == 'N' && LeftPrefix[0] == 'C';
      assert m[..|LeftPrefix|][0] != LeftPrefix[0];
    }
  }

  /** A "disconnected" message names the address it was built from and is never read as an arrival. */
  lemma LeftRoundTrip(address: string)
    ensures LeftAddress(LeftNotice(address).message) == Some(address)
    ensures JoinedAddress(LeftNotice(address).message) == None
  {
    var m := LeftNotice(address).message;
    assert m[..|LeftPrefix|] == LeftPrefix;
    assert m[|m| - |LeftSuffix|..] == LeftSuffix;
    assert m[|LeftPrefix|..|m| - |LeftSuffix|] == address;
    if |JoinedPrefix| + |JoinedSuffix| <= |m| {
      assert m[0] == 'C' && JoinedPrefix[0] == 'N';
      assert m[..|JoinedPrefix|][0] != JoinedPrefix[0];
    }
  }

  /** A chat line gives back its user and text whenever the user name holds no ": ". */
  lemma ChatRoundTrip(user: string, text: string)
    requires !HasSeparator(user)
    ensures ChatParts(ChatBoxNotice(user, text).message) == Some((user, text))
  {
    var m := ChatBoxNotice(user, text).message;
    var line := m[..|m| - 1];
    assert line == user + ": " + text;
    var k := SeparatorAt(line);
    var u := |user|;
    assert line[u] == ':' && line[u + 1] == ' ';
    assert k == u;
    assert line[..k] == user && line[k + 2..] == text;
  }

  // ---------------------------------------------------------------------------
  // The sealed notices
  // ---------------------------------------------------------------------------

  /**
   * `newConnectionACK`: the sealed JSON encoding of the "joined" notice.
   * `jsonEncode` stands for `json_encode`, which is not part of this model.
   */
  function NewConnectionAck(address: string, jsonEncode: Notice -> seq<byte>): (r: Result<seq<byte>, Frame.SealError>)
    ensures r.Ok? <==> |jsonEncode(JoinedNotice(address))| < 0x1_0000
    ensures r.Ok? ==> Frame.ServerPayload(r.value) == Some(jsonEncode(JoinedNotice(address)))
  {
    Frame.Seal(jsonEncode(JoinedNotice(address)))
  }

  /** `connectionDisconnectACK`: the sealed JSON encoding of the "disconnected" notice. */
  function ConnectionDisconnectAck(address: string, jsonEncode: Notice -> seq<byte>): (r: Result<seq<byte>, Frame.SealError>)
    ensures r.Ok? <==> |jsonEncode(LeftNotice(address))| < 0x1_0000
    ensures r.Ok? ==> Frame.ServerPayload(r.value) == Some(jsonEncode(LeftNotice(address)))
  {
    Frame.Seal(jsonEncode(LeftNotice(address)))
  }

  /** `createChatBoxMessage`: the sealed JSON encoding of the chat line. */
  function CreateChatBoxMessage(user: string, text: string, jsonEncode: Notice -> seq<byte>): (r: Result<seq<byte>, Frame.SealError>)
    ensures r.Ok? <==> |jsonEncode(ChatBoxNotice(user, text))| < 0x1_0000
    ensures r.Ok? ==> Frame.ServerPayload(r.value) == Some(jsonEncode(ChatBoxNotice(user, text)))
  {
    Frame.Seal(jsonEncode(ChatBoxNotice(user, text)))
  }
}
