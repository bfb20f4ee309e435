/**
 The chat log: sending a message under the current profile name, and the
 rewrite of author prefixes that runs when the profile name changes.
 */
module Chat {
  import opened Text

  /** One log entry: the author-prefixed text and the locale-formatted send time. */
  datatype ChatMessage = ChatMessage(message: string, timestamp: string)

  /** The text `"<name>:"` a message must start with to count as written under `name`. */
  function AuthorTag(name: string): string {
    name + ":"
  }

  /** Every message of `chat` starts with `"<name>: "`. */
  predicate AuthoredBy(chat: seq<ChatMessage>, name: string) {
    forall i :: 0 <= i < |chat| ==> StartsWith(chat[i].message, name + ": ")
  }

  /**
   The chat form's submit handler: a message that is blank after trimming is
   dropped; otherwise the trimmed text is appended under the profile name.
   */
  function Send(chat: seq<ChatMessage>, profileName: string, input: string, timestamp: string)
    : (r: seq<ChatMessage>)
    ensures AllWhitespace(input) ==> r == chat
    ensures !AllWhitespace(input) ==>
              && |r| == |chat| + 1
              && r[..|chat|] == chat
              && r[|chat|] == ChatMessage(profileName + ": " + Trim(input), timestamp)
  {
    TrimEmptyIff(input);
    var body := Trim(input);
    if body == [] then chat else chat + [ChatMessage(profileName + ": " + body, timestamp)]
  }

  /** Sending keeps every message attributed to the profile that is sending. */
  lemma SendKeepsAuthored(chat: seq<ChatMessage>, profileName: string, input: string, timestamp: string)
    requires AuthoredBy(chat, profileName)
    ensures AuthoredBy(Send(chat, profileName, input, timestamp), profileName)
  {
    var r := Send(chat, profileName, input, timestamp);
    if |r| > |chat| {
      var p := profileName + ": ";
      assert r[|chat|].message[..|p|] == p;
      forall i | 0 <= i < |chat| ensures StartsWith(r[i].message, p) {
        assert r[i] == r[..|chat|][i];
      }
    }
  }

  /**
   One message under the rename: `startsWith` guards a `replace` of the
   first occurrence of the old tag, which is then the message's own prefix.
   */
  function RenameMessage(m: ChatMessage, oldName: string, newName: string): (r: ChatMessage)
    ensures r.timestamp == m.timestamp
    ensures !StartsWith(m.message, AuthorTag(oldName)) ==> r == m
    ensures StartsWith(m.message, AuthorTag(oldName)) ==>
              r.message == AuthorTag(newName) + m.message[|oldName| + 1..]
  {
    var tag := AuthorTag(oldName);
    if StartsWith(m.message, tag) then
      ReplaceFirstOfPrefix(m.message, tag, AuthorTag(newName));
      m.(message := ReplaceFirst(m.message, tag, AuthorTag(newName)))
    else m
  }

  /**
   `updateChatMessagesWithNewProfileName`: every message written under the
   old name is moved to the new one; nothing else changes.
   */
  function Rename(chat: seq<ChatMessage>, oldName: string, newName: string): (r: seq<ChatMessage>)
    ensures |r| == |chat|
    ensures forall i :: 0 <= i < |chat| ==> r[i].timestamp == chat[i].timestamp
    ensures forall i :: 0 <= i < |chat| && !StartsWith(chat[i].message, AuthorTag(oldName)) ==> r[i] == chat[i]
    ensures forall i :: 0 <= i < |chat| && StartsWith(chat[i].message, AuthorTag(oldName)) ==>
              r[i].message == AuthorTag(newName) + chat[i].message[|oldName| + 1..]
  {
    seq(|chat|, i requires 0 <= i < |chat| => RenameMessage(chat[i], oldName, newName))
  }

  /** A log written entirely under the old name is, after the rename, written entirely under the new one. */
  lemma RenameKeepsAuthored(chat: seq<ChatMessage>, oldName: string, newName: string)
    requires AuthoredBy(chat, oldName)
    ensures AuthoredBy(Rename(chat, oldName, newName), newName)
  {
    var r := Rename(chat, oldName, newName);
    forall i | 0 <= i < |chat| ensures StartsWith(r[i].message, newName + ": ") {
      var m := chat[i].message;
      assert m[..|oldName| + 2] == oldName + ": ";
      assert m[..|oldName| + 1] == AuthorTag(oldName);
      assert m[|oldName| + 1] == ' ';
      assert r[i].message[..|newName| + 2] == newName + ": ";
    }
  }

  /** Renaming to the same name leaves the log as it was. */
  lemma RenameSameName(chat: seq<ChatMessage>, name: string)
    ensures Rename(chat, name, name) == chat
  {
    var r := Rename(chat, name, name);
    forall i | 0 <= i < |chat| ensures r[i] == chat[i] {
      var m := chat[i].message;
      if StartsWith(m, AuthorTag(name)) {
        assert m == m[..|name| + 1] + m[|name| + 1..];
      }
    }
  }

  /**
   With no name saved yet the old name is empty, so every message starting
   with `:`, as those sent before any name was saved do, gets the new name.
   */
  lemma RenameFromEmptyName(chat: seq<ChatMessage>, newName: string)
    ensures var r := Rename(chat, "", newName);
            forall i :: 0 <= i < |chat| && StartsWith(chat[i].message, ":") ==>
              r[i].message == newName + chat[i].message
  {
    var r := Rename(chat, "", newName);
    forall i | 0 <= i < |chat| && StartsWith(chat[i].message, ":")
      ensures r[i].message == newName + chat[i].message
    {
      var m := chat[i].message;
      assert AuthorTag("") == ":";
      assert m == [':'] + m[1..];
    }
  }

  /** Renaming Alice to Bob rewrites her message and leaves one that merely mentions her. */
  lemma RenameAliceToBob()
    ensures Rename([ChatMessage("Alice: hi", "t1"), ChatMessage("Carl: hello Alice", "t2")], "Alice", "Bob")
            == [ChatMessage("Bob: hi", "t1"), ChatMessage("Carl: hello Alice", "t2")]
  {
    var chat := [ChatMessage("Alice: hi", "t1"), ChatMessage("Carl: hello Alice", "t2")];
    var r := Rename(chat, "Alice", "Bob");
    assert StartsWith(chat[0].message, AuthorTag("Alice"));
    assert !StartsWith(chat[1].message, AuthorTag("Alice")) by {
      assert chat[1].message[0] != AuthorTag("Alice")[0];
    }
    assert chat[0].message[6..] == " hi";
    assert r[0] == ChatMessage("Bob: hi", "t1");
    assert r[1] == chat[1];
  }

  /**
   The rename as written: JavaScript's `replace` expands `$` patterns in the
   replacement text, which here is the new name followed by `:`.
   */
  function RenameMessageAsWritten(m: ChatMessage, oldName: string, newName: string): (r: ChatMessage)
    ensures r.timestamp == m.timestamp
    ensures !StartsWith(m.message, AuthorTag(oldName)) ==> r == m
    ensures StartsWith(m.message, AuthorTag(oldName)) ==>
              var rest := m.message[|oldName| + 1..];
              r.message == Substitution(AuthorTag(newName), AuthorTag(oldName), "", rest) + rest
  {
    var tag := AuthorTag(oldName);
    if StartsWith(m.message, tag) then
      PrefixIsFirstOccurrence(m.message, tag);
      assert m.message[..0] == "";
      m.(message := JsReplace(m.message, tag, AuthorTag(newName)))
    else m
  }

  function RenameAsWritten(chat: seq<ChatMessage>, oldName: string, newName: string): (r: seq<ChatMessage>)
    ensures |r| == |chat|
    ensures forall i :: 0 <= i < |chat| ==> r[i].timestamp == chat[i].timestamp
    ensures forall i :: 0 <= i < |chat| && !StartsWith(chat[i].message, AuthorTag(oldName)) ==> r[i] == chat[i]
    ensures forall i :: 0 <= i < |chat| && StartsWith(chat[i].message, AuthorTag(oldName)) ==>
              var rest := chat[i].message[|oldName| + 1..];
              r[i].message == Substitution(AuthorTag(newName), AuthorTag(oldName), "", rest) + rest
  {
    seq(|chat|, i requires 0 <= i < |chat| => RenameMessageAsWritten(chat[i], oldName, newName))
  }

  /** For a new name without `$`, the rename as written is the literal one. */
  lemma RenameAsWrittenAgrees(chat: seq<ChatMessage>, oldName: string, newName: string)
    requires '$' !in newName
    ensures RenameAsWritten(chat, oldName, newName) == Rename(chat, oldName, newName)
  {
    var tag := AuthorTag(newName);
    assert '$' !in tag by {
      forall i | 0 <= i < |tag| ensures tag[i] != '$' {
        if i < |newName| { assert tag[i] == newName[i]; }
      }
    }
    forall i | 0 <= i < |chat|
      ensures RenameMessageAsWritten(chat[i], oldName, newName) == RenameMessage(chat[i], oldName, newName)
    {
      JsReplaceLiteral(chat[i].message, AuthorTag(oldName), tag);
    }
  }

  /**
   Saving the name `$$` turns `A: hi` into `$: hi` instead of `$$: hi`: the
   stored name and the prefix written into the log disagree.
   */
  lemma RenameAsWrittenMangles(t: string)
    ensures RenameAsWritten([ChatMessage("A: hi", t)], "A", "$$") == [ChatMessage("$: hi", t)]
    ensures Rename([ChatMessage("A: hi", t)], "A", "$$") == [ChatMessage("$$: hi", t)]
  {
    var m := "A: hi";
    assert StartsWith(m, AuthorTag("A"));
    assert m[2..] == " hi";
    assert AuthorTag("A") == "A:" && AuthorTag("$$") == "$$:";
    assert Substitution("$$:", "A:", "", " hi") == "$:";
    assert "$:" + " hi" == "$: hi";
    assert RenameAsWritten([ChatMessage(m, t)], "A", "$$")[0] == ChatMessage("$: hi", t);
    assert Rename([ChatMessage(m, t)], "A", "$$")[0] == ChatMessage("$$: hi", t);
  }

  /**
   As written, renaming `$$` to itself is not the identity: `$$: hi`
   becomes `$: hi`, where the intended rename keeps it.
   */
  lemma RenameAsWrittenSameNameChanges(t: string)
    ensures RenameAsWritten([ChatMessage("$$: hi", t)], "$$", "$$") == [ChatMessage("$: hi", t)]
  {
    var m := "$$: hi";
    assert StartsWith(m, AuthorTag("$$"));
    assert m[3..] == " hi";
    assert Substitution("$$:", "$$:", "", " hi") == "$:";
    assert RenameAsWritten([ChatMessage(m, t)], "$$", "$$")[0] == ChatMessage("$: hi", t);
  }
}
