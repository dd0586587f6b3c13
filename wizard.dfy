/**
 * The homework conversation's transition table: which handler python-telegram-bot's
 * `ConversationHandler` runs for an update, given the dialog's current state. A
 * handler's own work is not part of this module; the date step is in `DateStep`.
 */
module Wizard {
  import opened Wrappers
  import States

  /** The parts of a Telegram update the table looks at. */
  datatype Update =
    | Callback(data: string)                        // an inline-button press and its `callback_data`
    | Message(text: string, command: Option<string>) // a text message; `command` is the bot command Telegram marks at its start
    | Upload                                        // a document or a photo

  /** The handler filters the table uses. */
  datatype Filter =
    | CallbackIs(data: string)       // `pattern='^data$'`
    | CallbackStarts(prefix: string) // `pattern=r'^prefix'`
    | PlainText                      // `filters.TEXT & ~filters.COMMAND`
    | FileOrPhoto                    // `filters.Document.ALL | filters.PHOTO`
    | Command(name: string)          // `CommandHandler(name, …)`

  /** The callbacks the homework conversation registers. */
  datatype Handler =
    | HomeworkManagementMenuDispatcher | ReminderAddHwStart
    | PersonalHomeworkMenu | GroupHomeworkMenu
    | HomeworkMenu | EditHwStart | AddFileStart
    | GetHwText | ChooseHwSubject | FindNextClass | GetManualDateForHw
    | GetFileOnly | ChooseSubjectForFile | FindNextClassForFile | GetManualDateForFile
    | EditHwChooseSubject | EditHwGetDate
    | EditDeleteText | EditDeleteFile | EditReplaceTextStart | EditHwGetNewText
    | GroupHwAddTextStart | GroupHwAddFileStart | GroupHwEditStart
    | GetGroupHwText | ChooseGroupHwSubject | FindNextClassForGroupHwText | GetManualDateForGroupHwText
    | ChooseSubjectForGroupFile | FindNextClassForGroupHwFile | GetManualDateForGroupHwFile
    | EditGroupHwChooseSubject | EditGroupHwGetDate
    | EditGroupDeleteText | EditGroupDeleteFile | EditGroupReplaceTextStart | EditGroupGetNewText
    | StartOverFallback | BackToMainMenu

  datatype Route = Route(filter: Filter, handler: Handler)

  /**
   * Whether a filter accepts an update. Python's `$` also matches just before a final
   * line feed, so `'^data$'` accepts `data` followed by one `"\n"`.
   */
  predicate Matches(f: Filter, u: Update) {
    match f
    case CallbackIs(d) => u.Callback? && (u.data == d || u.data == d + "\n")
    case CallbackStarts(p) => u.Callback? && p <= u.data
    case PlainText => u.Message? && u.command.None?
    case FileOrPhoto => u.Upload?
    case Command(name) => u.Message? && u.command == Some(name)
  }

  /** `entry_points`. */
  function EntryPoints(): seq<Route> {
    [Route(CallbackIs("homework_management_menu"), HomeworkManagementMenuDispatcher),
     Route(CallbackStarts("reminder_add_hw_"), ReminderAddHwStart)]
  }

  /** `fallbacks`: `/start` and the main-menu button. */
  function Fallbacks(): seq<Route> {
    [Route(Command("start"), StartOverFallback),
     Route(CallbackIs("main_menu"), BackToMainMenu)]
  }

  /** `states`: the handlers listed for each state, in order; a state the table does not list has none. */
  function StateRoutes(s: States.State): seq<Route> {
    match s
    case HomeworkMenu =>
      [Route(CallbackIs("personal_hw_menu"), PersonalHomeworkMenu),
       Route(CallbackIs("group_hw_menu"), GroupHomeworkMenu)]
    case PersonalHwMenu =>
      [Route(CallbackIs("homework_add_start"), HomeworkMenu),
       Route(CallbackIs("homework_edit_start"), EditHwStart),
       Route(CallbackIs("add_file_start"), AddFileStart),
       Route(CallbackIs("homework_management_menu"), HomeworkManagementMenuDispatcher)]
    case GetHwText => [Route(PlainText, GetHwText)]
    case ChooseHwSubject => [Route(CallbackStarts("hw_subj_"), ChooseHwSubject)]
    case ChooseHwDateOption =>
      [Route(CallbackIs("find_next_class"), FindNextClass),
       Route(PlainText, GetManualDateForHw)]
    case GetFileOnly => [Route(FileOrPhoto, GetFileOnly)]
    case ChooseSubjectForFile => [Route(CallbackStarts("file_subj_"), ChooseSubjectForFile)]
    case ChooseDateForFile =>
      [Route(CallbackIs("find_next_class_for_file"), FindNextClassForFile),
       Route(PlainText, GetManualDateForFile)]
    case EditHwChooseSubject => [Route(CallbackStarts("edit_hw_subj_"), EditHwChooseSubject)]
    case EditHwGetDate => [Route(PlainText, EditHwGetDate)]
    case EditHwMenu =>
      [Route(CallbackIs("edit_delete_text"), EditDeleteText),
       Route(CallbackIs("edit_delete_file"), EditDeleteFile),
       Route(CallbackIs("edit_replace_text"), EditReplaceTextStart)]
    case EditHwReplaceText => [Route(PlainText, EditHwGetNewText)]
    case GroupHwMenu =>
      [Route(CallbackIs("group_hw_add_text_start"), GroupHwAddTextStart),
       Route(CallbackIs("group_hw_add_file_start"), GroupHwAddFileStart),
       Route(CallbackIs("group_hw_edit_start"), GroupHwEditStart),
       Route(CallbackIs("homework_management_menu"), HomeworkManagementMenuDispatcher)]
    case GetGroupHwText => [Route(PlainText, GetGroupHwText)]
    case ChooseGroupHwSubject => [Route(CallbackStarts("group_hw_subj_"), ChooseGroupHwSubject)]
    case ChooseGroupHwDateOption =>
      [Route(CallbackIs("find_next_class_group_text"), FindNextClassForGroupHwText),
       Route(PlainText, GetManualDateForGroupHwText)]
    case ChooseSubjectForGroupFile => [Route(CallbackStarts("group_file_subj_"), ChooseSubjectForGroupFile)]
    case GetGroupFileOnly => [Route(FileOrPhoto, GetFileOnly)]
    case ChooseDateForGroupFile =>
      [Route(CallbackIs("find_next_class_for_group_file"), FindNextClassForGroupHwFile),
       Route(PlainText, GetManualDateForGroupHwFile)]
    case EditGroupHwChooseSubject => [Route(CallbackStarts("edit_group_hw_subj_"), EditGroupHwChooseSubject)]
    case EditGroupHwGetDate => [Route(PlainText, EditGroupHwGetDate)]
    case EditGroupHwMenu =>
      [Route(CallbackIs("edit_group_delete_text"), EditGroupDeleteText),
       Route(CallbackIs("edit_group_delete_file"), EditGroupDeleteFile),
       Route(CallbackIs("edit_group_replace_text"), EditGroupReplaceTextStart)]
    case EditGroupHwReplaceText => [Route(PlainText, EditGroupGetNewText)]
    case _ => []
  }

  /** The handler of the first route whose filter accepts the update. */
  function FirstMatch(routes: seq<Route>, u: Update): Option<Handler>
    decreases |routes|
  {
    if routes == [] then None
    else if Matches(routes[0].filter, u) then Some(routes[0].handler)
    else FirstMatch(routes[1..], u)
  }

  /**
   * `FirstMatch` picks a route whose filter accepts the update and before which no
   * filter does, and finds nothing exactly when no filter accepts it.
   */
  lemma {:induction false} FirstMatchIsFirst(routes: seq<Route>, u: Update)
    ensures FirstMatch(routes, u).None? <==> forall i :: 0 <= i < |routes| ==> !Matches(routes[i].filter, u)
    ensures FirstMatch(routes, u).Some? ==>
      exists i :: 0 <= i < |routes| && Matches(routes[i].filter, u) && routes[i].handler == FirstMatch(routes, u).value
        && forall j :: 0 <= j < i ==> !Matches(routes[j].filter, u)
    decreases |routes|
  {
    if routes != [] && !Matches(routes[0].filter, u) {
      var rest := routes[1..];
      FirstMatchIsFirst(rest, u);
      assert forall i :: 1 <= i < |routes| ==> routes[i] == rest[i - 1];
      if FirstMatch(rest, u).Some? {
        var i :| 0 <= i < |rest| && Matches(rest[i].filter, u) && rest[i].handler == FirstMatch(rest, u).value
          && forall j :: 0 <= j < i ==> !Matches(rest[j].filter, u);
        assert routes[i + 1] == rest[i];
        forall j | 0 <= j < i + 1 ensures !Matches(routes[j].filter, u) {
          if j > 0 {
            assert routes[j] == rest[j - 1];
          }
        }
      } else {
        forall i | 0 <= i < |routes| ensures !Matches(routes[i].filter, u) {
          if i > 0 {
            assert routes[i] == rest[i - 1];
          }
        }
      }
    } else if routes != [] {
      assert Matches(routes[0].filter, u);
    }
  }

  /**
   * `ConversationHandler.check_update`: outside the dialog only the entry points are
   * tried; inside it, the current state's handlers and then the fallbacks.
   */
  function Dispatch(s: States.State, u: Update): Option<Handler> {
    if s == States.End then FirstMatch(EntryPoints(), u)
    else
      match FirstMatch(StateRoutes(s), u)
      case Some(h) => Some(h)
      case None => FirstMatch(Fallbacks(), u)
  }

  /** No state's handlers take a bot command. */
  lemma NoCommandRoute(s: States.State, u: Update)
    requires u.Message? && u.command.Some?
    ensures FirstMatch(StateRoutes(s), u).None?
  {
    var routes := StateRoutes(s);
    RoutesOrdinary(s);
    forall i | 0 <= i < |routes| ensures !Matches(routes[i].filter, u) {
      assert Ordinary(routes[i].filter);
    }
    FirstMatchIsFirst(routes, u);
  }

  /**
   * The filters the states use: plain text, uploads, exact callbacks longer than ten
   * characters, and callback prefixes that do not start with `m`.
   */
  predicate Ordinary(f: Filter) {
    || f.PlainText? || f.FileOrPhoto?
    || (f.CallbackIs? && |f.data| > 10)
    || (f.CallbackStarts? && f.prefix != [] && f.prefix[0] != 'm')
  }

  /** Every filter of every state is ordinary: no command, and nothing that accepts `main_menu`. */
  lemma RoutesOrdinary(s: States.State)
    ensures forall i :: 0 <= i < |StateRoutes(s)| ==> Ordinary(StateRoutes(s)[i].filter)
  {
    if s.HomeworkMenu? || s.PersonalHwMenu? || s.GetHwText? || s.ChooseHwSubject? || s.ChooseHwDateOption? {
      HomeworkRoutesOrdinary(s);
    } else if s.GetFileOnly? || s.ChooseSubjectForFile? || s.ChooseDateForFile? || s.EditHwChooseSubject? || s.EditHwGetDate? {
      FileRoutesOrdinary(s);
    } else if s.EditHwMenu? || s.EditHwReplaceText? || s.GroupHwMenu? || s.GetGroupHwText? || s.ChooseGroupHwSubject? {
      EditRoutesOrdinary(s);
    } else if s.ChooseGroupHwDateOption? || s.ChooseSubjectForGroupFile? || s.GetGroupFileOnly? || s.ChooseDateForGroupFile? {
      GroupRoutesOrdinary(s);
    } else if s.EditGroupHwChooseSubject? || s.EditGroupHwGetDate? || s.EditGroupHwMenu? || s.EditGroupHwReplaceText? {
      GroupEditRoutesOrdinary(s);
    } else {
      assert StateRoutes(s) == [];
    }
  }

  /** The homework menus and the personal homework steps. */
  lemma HomeworkRoutesOrdinary(s: States.State)
    requires s.HomeworkMenu? || s.PersonalHwMenu? || s.GetHwText? || s.ChooseHwSubject? || s.ChooseHwDateOption?
    ensures forall i :: 0 <= i < |StateRoutes(s)| ==> Ordinary(StateRoutes(s)[i].filter)
  {
  }

  /** The personal file steps and the start of the personal edit. */
  lemma FileRoutesOrdinary(s: States.State)
    requires s.GetFileOnly? || s.ChooseSubjectForFile? || s.ChooseDateForFile? || s.EditHwChooseSubject? || s.EditHwGetDate?
    ensures forall i :: 0 <= i < |StateRoutes(s)| ==> Ordinary(StateRoutes(s)[i].filter)
  {
  }

  /** The personal edit menu, the group menu and the group text steps. */
  lemma EditRoutesOrdinary(s: States.State)
    requires s.EditHwMenu? || s.EditHwReplaceText? || s.GroupHwMenu? || s.GetGroupHwText? || s.ChooseGroupHwSubject?
    ensures forall i :: 0 <= i < |StateRoutes(s)| ==> Ordinary(StateRoutes(s)[i].filter)
  {
  }

  /** The group date and group file steps. */
  lemma GroupRoutesOrdinary(s: States.State)
    requires s.ChooseGroupHwDateOption? || s.ChooseSubjectForGroupFile? || s.GetGroupFileOnly? || s.ChooseDateForGroupFile?
    ensures forall i :: 0 <= i < |StateRoutes(s)| ==> Ordinary(StateRoutes(s)[i].filter)
  {
  }

  /** The group edit states. */
  lemma GroupEditRoutesOrdinary(s: States.State)
    requires s.EditGroupHwChooseSubject? || s.EditGroupHwGetDate? || s.EditGroupHwMenu? || s.EditGroupHwReplaceText?
    ensures forall i :: 0 <= i < |StateRoutes(s)| ==> Ordinary(StateRoutes(s)[i].filter)
  {
  }

  /** Inside the dialog, `/start` always reaches the fallback, which ends the dialog. */
  lemma StartAlwaysLeaves(s: States.State, text: string)
    requires s != States.End
    ensures Dispatch(s, Message(text, Some("start"))) == Some(StartOverFallback)
  {
    NoCommandRoute(s, Message(text, Some("start")));
  }

  /** Inside the dialog, the main-menu button always reaches its fallback: no state claims `main_menu`. */
  lemma MainMenuAlwaysLeaves(s: States.State)
    requires s != States.End
    ensures Dispatch(s, Callback("main_menu")) == Some(BackToMainMenu)
  {
    var u := Callback("main_menu");
    var routes := StateRoutes(s);
    RoutesOrdinary(s);
    forall i | 0 <= i < |routes| ensures !Matches(routes[i].filter, u) {
      var f := routes[i].filter;
      assert Ordinary(f);
      if f.CallbackIs? {
        assert |f.data| != |u.data| && |f.data| + 1 != |u.data|;
      } else if f.CallbackStarts? {
        assert f.prefix[0] != u.data[0];
      }
    }
    FirstMatchIsFirst(routes, u);
    assert Fallbacks()[1..] == [Route(CallbackIs("main_menu"), BackToMainMenu)];
  }

  /** Outside the dialog a text message or an upload starts nothing. */
  lemma IdleIgnoresMessages(u: Update)
    requires !u.Callback?
    ensures Dispatch(States.End, u).None?
  {
    FirstMatchIsFirst(EntryPoints(), u);
  }

  /**
   * While the dialog waits for a date, every plain text message goes to the date
   * handler, so a date step that keeps the state reads the next message as a date again.
   */
  lemma DateQuestionReadsText(text: string)
    ensures Dispatch(States.ChooseHwDateOption, Message(text, None)) == Some(GetManualDateForHw)
    ensures Dispatch(States.ChooseDateForFile, Message(text, None)) == Some(GetManualDateForFile)
  {
    var u := Message(text, None);
    var hw, file := StateRoutes(States.ChooseHwDateOption), StateRoutes(States.ChooseDateForFile);
    assert !Matches(hw[0].filter, u) && hw[1..] == [Route(PlainText, GetManualDateForHw)];
    assert !Matches(file[0].filter, u) && file[1..] == [Route(PlainText, GetManualDateForFile)];
  }

  /** Every route tried in state `s`, in the order they are tried. */
  function Routes(s: States.State): seq<Route> {
    if s == States.End then EntryPoints() else StateRoutes(s) + Fallbacks()
  }

  /** Trying `a` and then `b` is trying `a + b`. */
  lemma {:induction false} FirstMatchConcat(a: seq<Route>, b: seq<Route>, u: Update)
    ensures FirstMatch(a + b, u) == if FirstMatch(a, u).Some? then FirstMatch(a, u) else FirstMatch(b, u)
    decreases |a|
  {
    if a == [] {
      assert a + b == b;
    } else {
      assert (a + b)[0] == a[0] && (a + b)[1..] == a[1..] + b;
      FirstMatchConcat(a[1..], b, u);
    }
  }

  /**
   * The table picks the first route of `Routes(s)` that accepts the update, so the
   * handler picked always accepts it and no route tried earlier does.
   */
  lemma DispatchIsFirstMatch(s: States.State, u: Update)
    ensures Dispatch(s, u) == FirstMatch(Routes(s), u)
  {
    if s != States.End {
      FirstMatchConcat(StateRoutes(s), Fallbacks(), u);
    }
  }
}
