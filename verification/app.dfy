/**
 The to-do screen's state and the handlers that update it: submitting the
 input field, pressing an entry, answering the delete dialog, and hydrating
 the collection from the stored value at start-up. The id of a new entry is a
 parameter (the app reads it from the clock), and decoding the stored string
 is a parameter too (the app hands it to a JSON parser).
 */
module App {
  import opened JsString
  import opened Tasks

  datatype Option<T> = None | Some(value: T)

  /** What the screen holds: the task collection and the text typed into the
      input field. */
  datatype Screen = Screen(tasks: seq<Task>, input: string)

  /** Whether submitting raised the "please type a task" alert. */
  datatype Feedback = Quiet | EmptyTaskAlert

  datatype AddResult = AddResult(screen: Screen, feedback: Feedback)

  /** Submitting the input field: a blank input raises the alert and changes
      nothing; otherwise the trimmed text is appended as an open entry with
      id `id` and the field is cleared. */
  function AddTask(s: Screen, id: string): (r: AddResult)
    ensures r.feedback == EmptyTaskAlert <==> AllWhitespace(s.input)
    ensures r.feedback == EmptyTaskAlert ==> r.screen == s
    ensures r.feedback == Quiet ==>
              && |r.screen.tasks| == |s.tasks| + 1
              && r.screen.tasks[..|s.tasks|] == s.tasks
              && r.screen.tasks[|s.tasks|] == Task(id, Trim(s.input), false)
              && r.screen.input == ""
  {
    var text := Trim(s.input);
    if |text| > 0 then
      AddResult(Screen(s.tasks + [Task(id, text, false)], ""), Quiet)
    else
      AddResult(s, EmptyTaskAlert)
  }

  /** Answering the delete dialog for the entry with id `id`: "cancel"
      changes nothing, "delete" drops every entry carrying `id`. */
  function DeleteTask(tasks: seq<Task>, id: string, confirmed: bool): (r: seq<Task>)
    ensures !confirmed ==> r == tasks
    ensures confirmed ==> forall i :: 0 <= i < |r| ==> r[i].id != id
    ensures confirmed ==> |r| == |tasks| - Count(tasks, id)
    ensures forall t :: t in r ==> t in tasks
  {
    if confirmed then Remove(tasks, id) else tasks
  }

  /** Start-up hydration. `stored` is what the key-value store returned for
      the key "tasks" (None when nothing is stored); `decode` is the JSON
      parser, None standing for a parse that throws. Only a truthy stored
      string that decodes replaces the collection; an absent or empty one,
      or one that fails to decode, leaves `current` as it is. */
  function Hydrate(current: seq<Task>, stored: Option<string>,
                   decode: string -> Option<seq<Task>>): (r: seq<Task>)
    ensures r == current || (stored.Some? && decode(stored.value) == Some(r))
    ensures (stored == None || stored == Some("")) ==> r == current
    ensures stored.Some? && stored.value != "" && decode(stored.value).Some? ==>
              r == decode(stored.value).value
  {
    match stored
    case None => current
    case Some(text) =>
      if text == "" then current
      else
        match decode(text)
        case None => current
        case Some(saved) => saved
  }

  /** Once the stored value decodes, hydration discards whatever the
      collection held before, so edits made before it completes are lost. */
  lemma HydrateDiscardsEarlierEdits(a: seq<Task>, b: seq<Task>, stored: string,
                                    decode: string -> Option<seq<Task>>)
    requires stored != "" && decode(stored).Some?
    ensures Hydrate(a, Some(stored), decode) == Hydrate(b, Some(stored), decode)
    ensures Hydrate(a, Some(stored), decode) == decode(stored).value
  {
  }

  /** A user action on the screen. */
  datatype Event =
    | Type(text: string)                      // editing the input field
    | Submit(id: string)                      // pressing "Adicionar" or the keyboard's submit key
    | Press(id: string)                       // pressing the text of an entry
    | AnswerDelete(id: string, confirmed: bool) // answering the delete dialog

  /** The screen after one user action. */
  function Step(s: Screen, e: Event): (r: Screen)
    ensures e.Type? ==> r == Screen(s.tasks, e.text)
    ensures !e.Submit? ==> |r.tasks| <= |s.tasks|
    ensures e.Submit? ==> |s.tasks| <= |r.tasks| <= |s.tasks| + 1
    ensures e.Press? || e.AnswerDelete? ==> r.input == s.input
  {
    match e
    case Type(text) => Screen(s.tasks, text)
    case Submit(id) => AddTask(s, id).screen
    case Press(id) => Screen(Toggle(s.tasks, id), s.input)
    case AnswerDelete(id, confirmed) => Screen(DeleteTask(s.tasks, id, confirmed), s.input)
  }

  /** The screen after a sequence of user actions, oldest first. */
  function Run(s: Screen, events: seq<Event>): Screen
    decreases |events|
  {
    if |events| == 0 then s
    else Run(Step(s, events[0]), events[1..])
  }

  /** Every stored text is non-empty and has no white space at either end:
      what the add handler lets into the collection. */
  predicate TextsTrimmed(tasks: seq<Task>) {
    forall i :: 0 <= i < |tasks| ==> tasks[i].text != [] && IsTrimmed(tasks[i].text)
  }

  /** Every user action keeps stored texts non-blank and trimmed. */
  lemma StepKeepsTextsTrimmed(s: Screen, e: Event)
    requires TextsTrimmed(s.tasks)
    ensures TextsTrimmed(Step(s, e).tasks)
  {
    match e
    case Type(_) =>
    case Submit(id) =>
    case Press(id) =>
    case AnswerDelete(id, confirmed) =>
      var r := Step(s, e).tasks;
      forall i | 0 <= i < |r|
        ensures r[i].text != [] && IsTrimmed(r[i].text)
      {
        assert r[i] in s.tasks;
      }
  }

  /** Any sequence of user actions keeps stored texts non-blank and trimmed. */
  lemma {:induction false} RunKeepsTextsTrimmed(s: Screen, events: seq<Event>)
    requires TextsTrimmed(s.tasks)
    ensures TextsTrimmed(Run(s, events).tasks)
    decreases |events|
  {
    if |events| > 0 {
      StepKeepsTextsTrimmed(s, events[0]);
      RunKeepsTextsTrimmed(Step(s, events[0]), events[1..]);
    }
  }

  /** A successful add followed by a confirmed delete of the new entry's id
      gives back the old collection, provided no older entry carried it. */
  lemma DeleteUndoesAdd(s: Screen, id: string)
    requires !AllWhitespace(s.input)
    requires !HasId(s.tasks, id)
    ensures DeleteTask(AddTask(s, id).screen.tasks, id, true) == s.tasks
  {
    var added := AddTask(s, id).screen.tasks;
    assert added[..|s.tasks|] == s.tasks;
    RemoveAbsent(s.tasks, id);
  }

  /** An add with an unused id keeps distinct ids distinct. The app takes
      ids from a millisecond clock, so this freshness is not guaranteed. */
  lemma AddFreshKeepsIdsDistinct(s: Screen, id: string)
    requires forall i, j :: 0 <= i < j < |s.tasks| ==> s.tasks[i].id != s.tasks[j].id
    requires !HasId(s.tasks, id)
    ensures var r := AddTask(s, id).screen.tasks;
            forall i, j :: 0 <= i < j < |r| ==> r[i].id != r[j].id
  {
  }

  /** A submit that passes validation with an id already in use stores two
      entries with that id: the clock-based id does not keep the uniqueness
      the add handler's comment promises. */
  lemma AddUsedIdDuplicates(s: Screen, id: string)
    requires !AllWhitespace(s.input) && HasId(s.tasks, id)
    ensures var r := AddTask(s, id).screen.tasks;
            exists i, j :: 0 <= i < j < |r| && r[i].id == r[j].id
  {
    var r := AddTask(s, id).screen.tasks;
    var i :| 0 <= i < |s.tasks| && s.tasks[i].id == id;
    assert r[i] == r[..|s.tasks|][i] == s.tasks[i];
    assert r[|s.tasks|].id == id;
  }

  /** Two submits that read the same clock value store two entries with the
      same id: nothing in the add handler prevents it. */
  lemma SameIdTwice(s: Screen, x: string, y: string, id: string)
    requires !AllWhitespace(x) && !AllWhitespace(y)
    ensures Count(Run(s, [Type(x), Submit(id), Type(y), Submit(id)]).tasks, id)
            == Count(s.tasks, id) + 2
  {
    var a := Step(Step(s, Type(x)), Submit(id));
    var b := Step(Step(a, Type(y)), Submit(id));
    SubmitAppends(s.(input := x), id);
    SubmitAppends(a.(input := y), id);
    assert a.tasks[..|a.tasks| - 1] == s.tasks;
    assert b.tasks[..|b.tasks| - 1] == a.tasks;
    RunUnfold(s, [Type(x), Submit(id), Type(y), Submit(id)]);
    RunUnfold(s.(input := x), [Submit(id), Type(y), Submit(id)]);
    RunUnfold(a, [Type(y), Submit(id)]);
    RunUnfold(a.(input := y), [Submit(id)]);
  }

  /** A sample session: two adds, completing the first, deleting the
      second. */
  lemma Walkthrough(session: seq<Event>)
    requires session == [Type("Buy milk"), Submit("1"), Type("  Call mom "), Submit("2"),
                          Press("1"), AnswerDelete("2", true)]
    ensures Run(Screen([], ""), session) == Screen([Task("1", "Buy milk", true)], "")
  {
    var first, second, last := session[..2], session[2..4], session[4..];
    assert session == first + second + last;
    assert first == [Type("Buy milk"), Submit("1")];
    assert second == [Type("  Call mom "), Submit("2")];
    assert last == [Press("1"), AnswerDelete("2", true)];
    WalkthroughFirstAdd();
    WalkthroughSecondAdd();
    WalkthroughToggleAndDelete();
    RunThrough(Screen([], ""), first, second, last,
               Screen([Task("1", "Buy milk", false)], ""),
               Screen([Task("1", "Buy milk", false), Task("2", "Call mom", false)], ""));
  }

  /** Running three batches one after another, through known screens. */
  lemma RunThrough(s: Screen, xs: seq<Event>, ys: seq<Event>, zs: seq<Event>, a: Screen, b: Screen)
    requires Run(s, xs) == a && Run(a, ys) == b
    ensures Run(s, xs + ys + zs) == Run(b, zs)
  {
    RunAppend(s, xs, ys);
    RunAppend(s, xs + ys, zs);
  }

  /** Sample session, first add. */
  lemma WalkthroughFirstAdd()
    ensures Run(Screen([], ""), [Type("Buy milk"), Submit("1")])
            == Screen([Task("1", "Buy milk", false)], "")
  {
    var s0 := Screen([], "");
    TrimOfTrimmed("Buy milk");
    RunUnfold(s0, [Type("Buy milk"), Submit("1")]);
    RunUnfold(s0.(input := "Buy milk"), [Submit("1")]);
    SubmitAppends(s0.(input := "Buy milk"), "1");
  }

  /** Sample session, second add: the input is trimmed on both sides. */
  lemma WalkthroughSecondAdd()
    ensures Run(Screen([Task("1", "Buy milk", false)], ""), [Type("  Call mom "), Submit("2")])
            == Screen([Task("1", "Buy milk", false), Task("2", "Call mom", false)], "")
  {
    var b := Screen([Task("1", "Buy milk", false)], "");
    TrimCallMom();
    RunUnfold(b, [Type("  Call mom "), Submit("2")]);
    RunUnfold(b.(input := "  Call mom "), [Submit("2")]);
    SubmitAppends(b.(input := "  Call mom "), "2");
  }

  /** The sample session's second input loses two leading spaces and one trailing space. */
  lemma TrimCallMom()
    ensures Trim("  Call mom ") == "Call mom"
    ensures !AllWhitespace("  Call mom ")
  {
    TrimUnique("  Call mom ", 2, 10);
    assert "  Call mom "[2..10] == "Call mom";
  }

  /** Sample session, completing "Buy milk" and deleting "Call mom". */
  lemma WalkthroughToggleAndDelete()
    ensures Run(Screen([Task("1", "Buy milk", false), Task("2", "Call mom", false)], ""),
                [Press("1"), AnswerDelete("2", true)])
            == Screen([Task("1", "Buy milk", true)], "")
  {
    var d := Screen([Task("1", "Buy milk", false), Task("2", "Call mom", false)], "");
    var e := Screen([Task("1", "Buy milk", true), Task("2", "Call mom", false)], "");
    RunUnfold(d, [Press("1"), AnswerDelete("2", true)]);
    assert Step(d, Press("1")) == e;
    RunUnfold(e, [AnswerDelete("2", true)]);
    assert Remove(e.tasks, "2") == [Task("1", "Buy milk", true)];
  }

  /** A submit that passes validation appends exactly one open entry holding
      the trimmed input and clears the field. */
  lemma SubmitAppends(s: Screen, id: string)
    requires !AllWhitespace(s.input)
    ensures Step(s, Submit(id)) == Screen(s.tasks + [Task(id, Trim(s.input), false)], "")
  {
    var r := Step(s, Submit(id));
    assert r.tasks == r.tasks[..|s.tasks|] + [r.tasks[|s.tasks|]];
  }

  /** Running two batches of actions is running their concatenation. */
  lemma {:induction false} RunAppend(s: Screen, xs: seq<Event>, ys: seq<Event>)
    ensures Run(s, xs + ys) == Run(Run(s, xs), ys)
    decreases |xs|
  {
    if |xs| > 0 {
      assert (xs + ys)[1..] == xs[1..] + ys;
      RunAppend(Step(s, xs[0]), xs[1..], ys);
    } else {
      assert xs + ys == ys;
    }
  }

  /** One step of `Run`. */
  lemma RunUnfold(s: Screen, events: seq<Event>)
    requires |events| > 0
    ensures Run(s, events) == Run(Step(s, events[0]), events[1..])
  {
  }
}
