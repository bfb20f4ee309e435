/**
 The widget as a state machine: its three pieces of state, one transition
 per event handler, and the invariant every transition keeps.
 */
module App {
  import opened Wrappers
  import opened Text
  import opened Files
  import opened Chat

  /** Everything the page keeps: the uploaded files, the chat log and the profile name. */
  datatype AppState = AppState(files: seq<FileInfo>, chat: seq<ChatMessage>, profileName: string)

  /** The state on a first visit, when storage holds nothing. */
  const Initial: AppState := AppState([], [], "")

  /**
   The profile-name save button as written: a blank name is ignored;
   otherwise the log is renamed from the old name with JavaScript's
   `replace`, then the trimmed name is stored.
   */
  function SaveProfileName(st: AppState, input: string): (r: AppState)
    ensures r.files == st.files
    ensures AllWhitespace(input) ==> r == st
    ensures !AllWhitespace(input) ==>
              && r.profileName == Trim(input)
              && r.chat == RenameAsWritten(st.chat, st.profileName, Trim(input))
  {
    TrimEmptyIff(input);
    var name := Trim(input);
    if name == [] then st
    else st.(chat := RenameAsWritten(st.chat, st.profileName, name), profileName := name)
  }

  /** The save button with the new name inserted literally into each renamed message. */
  function SaveProfileNameCorrected(st: AppState, input: string): (r: AppState)
    ensures r.files == st.files
    ensures AllWhitespace(input) ==> r == st
    ensures !AllWhitespace(input) ==>
              && r.profileName == Trim(input)
              && r.chat == Rename(st.chat, st.profileName, Trim(input))
  {
    TrimEmptyIff(input);
    var name := Trim(input);
    if name == [] then st
    else st.(chat := Rename(st.chat, st.profileName, name), profileName := name)
  }

  /** The upload form: a stored file is appended; a refused one, or one whose read fails, changes nothing. */
  function UploadFile(st: AppState, picked: Option<PickedFile>, read: (PickedFile, ReadMode) -> Option<string>)
    : (r: AppState)
    ensures r.chat == st.chat && r.profileName == st.profileName
    ensures picked.None? || picked.value.size > MAX_FILE_SIZE ==> r == st
    ensures picked.Some? && read(picked.value, ReadModeFor(picked.value.mimeType)).None? ==> r == st
    ensures picked.Some? && picked.value.size <= MAX_FILE_SIZE
            && read(picked.value, ReadModeFor(picked.value.mimeType)).Some? ==>
              && |r.files| == |st.files| + 1
              && r.files[..|st.files|] == st.files
              && var f := picked.value;
                 r.files[|st.files|] == FileInfo(f.name, f.size, f.mimeType, f.lastModified,
                                                 read(f, ReadModeFor(f.mimeType)).value)
  {
    match Upload(st.files, picked, read)
    case Success(files) => st.(files := files)
    case Failure(_) => st
  }

  /** The chat form: sends under the current profile name. */
  function SendMessage(st: AppState, input: string, timestamp: string): (r: AppState)
    ensures r.files == st.files && r.profileName == st.profileName
    ensures AllWhitespace(input) ==> r == st
    ensures !AllWhitespace(input) ==>
              r.chat == st.chat + [ChatMessage(st.profileName + ": " + Trim(input), timestamp)]
  {
    st.(chat := Send(st.chat, st.profileName, input, timestamp))
  }

  /**
   The delete button as written: a confirmed delete on the row at
   reversed-list position `index` splices `files[index]`, counted from the
   oldest file.
   */
  function DeleteFile(st: AppState, index: nat, confirmed: bool): (r: AppState)
    ensures r.chat == st.chat && r.profileName == st.profileName
    ensures !confirmed || index >= |st.files| ==> r == st
    ensures confirmed && index < |st.files| ==>
              && |r.files| == |st.files| - 1
              && r.files == st.files[..index] + st.files[index + 1..]
              && multiset(r.files) + multiset{st.files[index]} == multiset(st.files)
  {
    var files := DeleteAsWritten(st.files, index, confirmed);
    assert confirmed && index < |st.files| ==> files == files[..index] + files[index..];
    st.(files := files)
  }

  /** The delete button removing the file its row shows. */
  function DeleteFileCorrected(st: AppState, index: nat, confirmed: bool): (r: AppState)
    ensures r.chat == st.chat && r.profileName == st.profileName
    ensures !confirmed || index >= |st.files| ==> r == st
    ensures confirmed && index < |st.files| ==>
              && |r.files| == |st.files| - 1
              && multiset(r.files) + multiset{st.files[|st.files| - 1 - index]} == multiset(st.files)
  {
    st.(files := DeleteDisplayed(st.files, index, confirmed))
  }

  /** The files the list shows for the search input. */
  function Search(st: AppState, input: string): (shown: seq<FileInfo>)
    ensures forall k :: 0 <= k < |shown| ==> shown[k] in st.files && Matches(shown[k], SearchKeyword(input))
  {
    View(Render(st.files, input))
  }

  /** A user action, with what the browser supplies for it. */
  datatype Event =
    | ProfileSaved(nameInput: string)
    | FileSubmitted(picked: Option<PickedFile>, read: (PickedFile, ReadMode) -> Option<string>)
    | ChatSubmitted(messageInput: string, timestamp: string)
    | DeleteConfirmed(index: nat, confirmed: bool)
    | SearchEdited(keyword: string)

  /** Which handlers run: the code as written, or with the two corrections of the rename and the delete. */
  datatype Build = AsWritten | Corrected

  /** Dispatch one event to its handler; searching only redraws. */
  function Step(b: Build, st: AppState, e: Event): AppState {
    match e
    case ProfileSaved(input) =>
      if b == AsWritten then SaveProfileName(st, input) else SaveProfileNameCorrected(st, input)
    case FileSubmitted(picked, read) => UploadFile(st, picked, read)
    case ChatSubmitted(input, timestamp) => SendMessage(st, input, timestamp)
    case DeleteConfirmed(index, confirmed) =>
      if b == AsWritten then DeleteFile(st, index, confirmed) else DeleteFileCorrected(st, index, confirmed)
    case SearchEdited(_) => st
  }

  /** Typing or submitting a search only redraws the list. */
  lemma SearchLeavesState(b: Build, st: AppState, keyword: string)
    ensures Step(b, st, SearchEdited(keyword)) == st
  {
  }

  /** Process events in order. */
  function Run(b: Build, st: AppState, events: seq<Event>): AppState
    decreases |events|
  {
    if events == [] then st else Run(b, Step(b, st, events[0]), events[1..])
  }

  lemma RunCons(b: Build, st: AppState, e: Event, rest: seq<Event>)
    ensures Run(b, st, [e] + rest) == Run(b, Step(b, st, e), rest)
  {
    assert ([e] + rest)[0] == e && ([e] + rest)[1..] == rest;
  }

  lemma RunTwo(b: Build, st: AppState, e1: Event, e2: Event)
    ensures Run(b, st, [e1, e2]) == Step(b, Step(b, st, e1), e2)
  {
    assert [e1, e2] == [e1] + [e2];
    RunCons(b, st, e1, [e2]);
    assert [e2] == [e2] + [];
    RunCons(b, Step(b, st, e1), e2, []);
  }

  /** Running one more event is one more step after the run. */
  lemma {:induction false} RunSnoc(b: Build, st: AppState, events: seq<Event>, e: Event)
    ensures Run(b, st, events + [e]) == Step(b, Run(b, st, events), e)
    decreases |events|
  {
    if events == [] {
      assert [] + [e] == [e] + [];
      RunCons(b, st, e, []);
    } else {
      assert events + [e] == [events[0]] + (events[1..] + [e]);
      RunCons(b, st, events[0], events[1..] + [e]);
      RunSnoc(b, Step(b, st, events[0]), events[1..], e);
    }
  }

  /**
   What the page keeps true: no file is over the limit, and every message
   carries the current profile name.
   */
  predicate Valid(st: AppState) {
    && (forall i :: 0 <= i < |st.files| ==> st.files[i].size <= MAX_FILE_SIZE)
    && AuthoredBy(st.chat, st.profileName)
  }

  /**
   An event under which the handlers as written keep `Valid`: any event
   except saving a name with a `$` in it. With the corrections every event is.
   */
  predicate Keeps(b: Build, e: Event) {
    b == AsWritten && e.ProfileSaved? ==> '$' !in e.nameInput
  }

  lemma InitialValid()
    ensures Valid(Initial)
  {
  }

  /** Every handler keeps the invariant. */
  lemma StepKeepsValid(b: Build, st: AppState, e: Event)
    requires Valid(st) && Keeps(b, e)
    ensures Valid(Step(b, st, e))
  {
    match e
    case ProfileSaved(input) =>
      if !AllWhitespace(input) {
        var name := Trim(input);
        if b == AsWritten {
          TrimChars(input, '$');
          RenameAsWrittenAgrees(st.chat, st.profileName, name);
        }
        RenameKeepsAuthored(st.chat, st.profileName, name);
      }
    case FileSubmitted(picked, read) =>
      var r := UploadFile(st, picked, read);
      if |r.files| > |st.files| {
        forall i | 0 <= i < |st.files| ensures r.files[i].size <= MAX_FILE_SIZE {
          assert r.files[i] == r.files[..|st.files|][i];
        }
      }
    case ChatSubmitted(input, timestamp) =>
      SendKeepsAuthored(st.chat, st.profileName, input, timestamp);
    case DeleteConfirmed(index, confirmed) =>
      var r := Step(b, st, e);
      forall i | 0 <= i < |r.files| ensures r.files[i].size <= MAX_FILE_SIZE {
        assert r.files[i] in multiset(st.files);
      }
    case SearchEdited(_) =>
  }

  /** Any sequence of events each keeping the invariant keeps it. */
  lemma {:induction false} RunKeepsValid(b: Build, st: AppState, events: seq<Event>)
    requires Valid(st)
    requires forall i :: 0 <= i < |events| ==> Keeps(b, events[i])
    ensures Valid(Run(b, st, events))
    decreases |events|
  {
    if events != [] {
      StepKeepsValid(b, st, events[0]);
      RunKeepsValid(b, Step(b, st, events[0]), events[1..]);
    }
  }

  /**
   From fresh storage, as long as no saved name contains `$`, every message
   shows the current profile name and no file is over the limit.
   */
  lemma ReachableStatesValid(events: seq<Event>)
    requires forall i :: 0 <= i < |events| ==> events[i].ProfileSaved? ==> '$' !in events[i].nameInput
    ensures Valid(Run(AsWritten, Initial, events))
  {
    InitialValid();
    RunKeepsValid(AsWritten, Initial, events);
  }

  /** With the corrected handlers the invariant holds whatever the user does. */
  lemma ReachableStatesValidCorrected(events: seq<Event>)
    ensures Valid(Run(Corrected, Initial, events))
  {
    InitialValid();
    RunKeepsValid(Corrected, Initial, events);
  }

  /**
   As written, saving `A`, sending `hi` and saving `$$` leaves the message
   `$: hi` under the profile name `$$`, which breaks the invariant.
   */
  lemma AsWrittenBreaksValid(t: string)
    ensures var st := Run(AsWritten, Initial, [ProfileSaved("A"), ChatSubmitted("hi", t), ProfileSaved("$$")]);
            && st.profileName == "$$" && st.chat == [ChatMessage("$: hi", t)]
            && !Valid(st)
  {
    SaveAThenHi(t);
    assert [ProfileSaved("A"), ChatSubmitted("hi", t), ProfileSaved("$$")]
        == [ProfileSaved("A"), ChatSubmitted("hi", t)] + [ProfileSaved("$$")];
    RunSnoc(AsWritten, Initial, [ProfileSaved("A"), ChatSubmitted("hi", t)], ProfileSaved("$$"));
    SaveDollarsAfterHi(t);
  }

  lemma SaveDollarsAfterHi(t: string)
    ensures var st := SaveProfileName(AppState([], [ChatMessage("A: hi", t)], "A"), "$$");
            && st == AppState([], [ChatMessage("$: hi", t)], "$$")
            && !Valid(st)
  {
    TrimWord("$$");
    RenameAsWrittenMangles(t);
    var st := SaveProfileName(AppState([], [ChatMessage("A: hi", t)], "A"), "$$");
    assert !StartsWith(st.chat[0].message, "$$" + ": ") by {
      assert st.chat[0].message[1] == ':';
    }
  }

  /**
   A `$` that starts no expansion pattern is copied: saving `a$b` over the
   profile `A` with the log `A: hi` keeps the invariant.
   */
  lemma SaveDollarLetterKeepsValid(t: string)
    ensures var st := SaveProfileName(AppState([], [ChatMessage("A: hi", t)], "A"), "a$b");
            && st == AppState([], [ChatMessage("a$b: hi", t)], "a$b")
            && Valid(st)
  {
    TrimWord("a$b");
    var m := "A: hi";
    assert StartsWith(m, AuthorTag("A"));
    assert m[2..] == " hi";
    assert AuthorTag("A") == "A:" && AuthorTag("a$b") == "a$b:";
    assert Substitution("a$b:", "A:", "", " hi") == "a$b:";
    assert "a$b:" + " hi" == "a$b: hi";
    var st := SaveProfileName(AppState([], [ChatMessage(m, t)], "A"), "a$b");
    assert st.chat[0] == ChatMessage("a$b: hi", t);
    assert StartsWith(st.chat[0].message, "a$b" + ": ");
  }

  lemma SaveAThenHi(t: string)
    ensures Run(AsWritten, Initial, [ProfileSaved("A"), ChatSubmitted("hi", t)])
            == AppState([], [ChatMessage("A: hi", t)], "A")
  {
    TrimWord("A");
    TrimWord("hi");
    var s1 := SaveProfileName(Initial, "A");
    assert s1 == AppState([], [], "A");
    var s2 := SendMessage(s1, "hi", t);
    assert "A" + ": " + "hi" == "A: hi";
    assert s2 == AppState([], [ChatMessage("A: hi", t)], "A");
    RunTwo(AsWritten, Initial, ProfileSaved("A"), ChatSubmitted("hi", t));
  }

  /** Saving the name Nova and sending "hello" stores exactly one message, `Nova: hello`. */
  lemma NovaSaysHello(t: string)
    ensures Run(AsWritten, Initial, [ProfileSaved("Nova"), ChatSubmitted("hello", t)]).chat
            == [ChatMessage("Nova: hello", t)]
  {
    TrimWord("Nova");
    TrimWord("hello");
    var s1 := SaveProfileName(Initial, "Nova");
    assert s1 == AppState([], [], "Nova");
    var s2 := SendMessage(s1, "hello", t);
    assert s2.chat == [ChatMessage("Nova" + ": " + "hello", t)];
    assert "Nova" + ": " + "hello" == "Nova: hello";
    RunTwo(AsWritten, Initial, ProfileSaved("Nova"), ChatSubmitted("hello", t));
  }

  /** A message sent before any name was saved moves to the name saved afterwards. */
  lemma HelloThenNova(t: string)
    ensures Run(AsWritten, Initial, [ChatSubmitted("hello", t), ProfileSaved("Nova")]).chat
            == [ChatMessage("Nova: hello", t)]
  {
    TrimWord("hello");
    var s1 := SendMessage(Initial, "hello", t);
    assert "" + ": " + "hello" == ": hello";
    assert s1 == AppState([], [ChatMessage(": hello", t)], "");
    SaveNovaAfterHello(t);
    RunTwo(AsWritten, Initial, ChatSubmitted("hello", t), ProfileSaved("Nova"));
  }

  lemma SaveNovaAfterHello(t: string)
    ensures SaveProfileName(AppState([], [ChatMessage(": hello", t)], ""), "Nova").chat
            == [ChatMessage("Nova: hello", t)]
  {
    TrimWord("Nova");
    var chat := [ChatMessage(": hello", t)];
    RenameAsWrittenAgrees(chat, "", "Nova");
    RenameFromEmptyName(chat, "Nova");
    assert StartsWith(chat[0].message, ":");
    var s2 := SaveProfileName(AppState([], chat, ""), "Nova");
    assert s2.chat[0].message == "Nova" + ": hello";
    assert "Nova" + ": hello" == "Nova: hello";
  }

  /** A word without whitespace is its own trim and is not blank. */
  lemma TrimWord(s: string)
    requires |s| > 0 && forall i :: 0 <= i < |s| ==> !IsWhitespace(s[i])
    ensures Trim(s) == s && !AllWhitespace(s)
  {
    assert LeadingWhitespace(s) == 0;
    assert TrailingWhitespace(s) == 0;
  }

  /** Uploading A then B from empty storage stores exactly those two records, in that order. */
  lemma UploadTwo(b: Build, a: PickedFile, c: PickedFile, read: (PickedFile, ReadMode) -> Option<string>)
    requires a.size <= MAX_FILE_SIZE && c.size <= MAX_FILE_SIZE
    requires read(a, ReadModeFor(a.mimeType)).Some? && read(c, ReadModeFor(c.mimeType)).Some?
    ensures var st := Run(b, Initial, [FileSubmitted(Some(a), read), FileSubmitted(Some(c), read)]);
            && |st.files| == 2 && st.files[0].name == a.name && st.files[1].name == c.name
  {
    RunTwo(b, Initial, FileSubmitted(Some(a), read), FileSubmitted(Some(c), read));
  }

  /** The top row of a blank search over two files shows the newer one. */
  lemma TopRowOfTwo(files: seq<FileInfo>)
    requires |files| == 2
    ensures Render(files, "")[0].file == files[1]
  {
    RenderBlankShowsAll(files, "");
    assert View(Render(files, ""))[0] == Reverse(files)[0];
  }

  /**
   Upload A then B and confirm the delete on the top row, which shows B: the
   handler as written removes A, and B is the file that remains.
   */
  lemma UploadTwoDeleteNewest(a: PickedFile, b: PickedFile, read: (PickedFile, ReadMode) -> Option<string>)
    requires a.size <= MAX_FILE_SIZE && b.size <= MAX_FILE_SIZE
    requires read(a, ReadModeFor(a.mimeType)).Some? && read(b, ReadModeFor(b.mimeType)).Some?
    ensures var st := Run(AsWritten, Initial, [FileSubmitted(Some(a), read), FileSubmitted(Some(b), read)]);
            && |st.files| == 2 && st.files[0].name == a.name && st.files[1].name == b.name
            && Render(st.files, "")[0].file == st.files[1]
            && Step(AsWritten, st, DeleteConfirmed(0, true)).files == [st.files[1]]
  {
    UploadTwo(AsWritten, a, b, read);
    var st := Run(AsWritten, Initial, [FileSubmitted(Some(a), read), FileSubmitted(Some(b), read)]);
    TopRowOfTwo(st.files);
    assert st.files[..0] + st.files[1..] == [st.files[1]];
  }

  /** With the corrected delete, the same steps remove B, the file the top row shows, and keep A. */
  lemma UploadTwoDeleteNewestCorrected(a: PickedFile, b: PickedFile, read: (PickedFile, ReadMode) -> Option<string>)
    requires a.size <= MAX_FILE_SIZE && b.size <= MAX_FILE_SIZE
    requires read(a, ReadModeFor(a.mimeType)).Some? && read(b, ReadModeFor(b.mimeType)).Some?
    ensures var st := Run(Corrected, Initial, [FileSubmitted(Some(a), read), FileSubmitted(Some(b), read)]);
            && |st.files| == 2 && st.files[0].name == a.name && st.files[1].name == b.name
            && Render(st.files, "")[0].file == st.files[1]
            && Step(Corrected, st, DeleteConfirmed(0, true)).files == [st.files[0]]
  {
    UploadTwo(Corrected, a, b, read);
    var st := Run(Corrected, Initial, [FileSubmitted(Some(a), read), FileSubmitted(Some(b), read)]);
    TopRowOfTwo(st.files);
    assert st.files[..1] + st.files[2..] == [st.files[0]];
  }
}
