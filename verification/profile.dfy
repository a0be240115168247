/**
  Editing the intro: `parse_command` and the field update of
  `handle_edit_states`. The handler runs while the user is in one of the
  `edit_*` states; it stores the message text in the chosen intro field,
  clears the field on `/empty`, leaves it on `/cancel`, and always leaves the
  editing state.
 */
module Profile {
  import opened Wrappers
  import opened Schema
  import opened Entities

  /** `text.lstrip('/')`. */
  function StripSlashes(text: string): (rest: string)
    ensures |rest| <= |text| && text == text[..|text| - |rest|] + rest
    ensures forall i | 0 <= i < |text| - |rest| :: text[i] == '/'
    ensures |rest| > 0 ==> rest[0] != '/'
    decreases |text|
  {
    if |text| > 0 && text[0] == '/' then StripSlashes(text[1..]) else text
  }

  /** `parse_command`: the command a message names, or `None` for plain text. */
  function ParseCommand(text: string): (command: Option<string>)
    ensures command.Some? <==> |text| > 0 && text[0] == '/'
    ensures command.Some? ==> |command.value| < |text| && text == text[..|text| - |command.value|] + command.value
    ensures command.Some? ==> forall i | 0 <= i < |text| - |command.value| :: text[i] == '/'
    ensures command.Some? && |command.value| > 0 ==> command.value[0] != '/'
  {
    if |text| > 0 && text[0] == '/' then Some(StripSlashes(text)) else None
  }

  /** `lstrip('/')` removes exactly the leading run of slashes. */
  lemma {:induction false} StripSlashesPrefix(slashes: string, name: string)
    requires forall i | 0 <= i < |slashes| :: slashes[i] == '/'
    requires |name| == 0 || name[0] != '/'
    ensures StripSlashes(slashes + name) == name
    decreases |slashes|
  {
    if |slashes| == 0 {
      assert slashes + name == name;
    } else {
      assert (slashes + name)[1..] == slashes[1..] + name;
      StripSlashesPrefix(slashes[1..], name);
    }
  }

  /** Any run of leading slashes names the same command: `"//cancel"` is `"cancel"`. */
  lemma ParseCommandSlashes(slashes: string, name: string)
    requires |slashes| > 0 && forall i | 0 <= i < |slashes| :: slashes[i] == '/'
    requires |name| == 0 || name[0] != '/'
    ensures ParseCommand(slashes + name) == Some(name)
  {
    StripSlashesPrefix(slashes, name);
  }

  lemma ParseCommandExamples()
    ensures ParseCommand("/cancel") == Some("cancel")
    ensures ParseCommand("//cancel") == Some("cancel")
    ensures ParseCommand("cancel") == None
    ensures ParseCommand("/") == Some("")
  {
    ParseCommandSlashes("/", "cancel");
    ParseCommandSlashes("//", "cancel");
    ParseCommandSlashes("/", "");
  }

  const CancelCommand: string := "cancel"
  const EmptyCommand: string := "empty"

  /** Which intro field a state edits: `edit_name`, `edit_city`, `edit_links`, `edit_about`. */
  function EditTarget(state: Option<Value>): (target: Option<nat>)
    ensures target.Some? ==> target.value < |IntroSchema()|
  {
    if state == Some(StrV("edit_name")) then Some(0)
    else if state == Some(StrV("edit_city")) then Some(1)
    else if state == Some(StrV("edit_links")) then Some(2)
    else if state == Some(StrV("edit_about")) then Some(3)
    else None
  }

  /** What the handler writes: `None` on `/empty`, otherwise the whole message text. */
  function EditValue(text: string): Option<Value> {
    if ParseCommand(text) != Some(EmptyCommand) then Some(StrV(text)) else None
  }

  /** The user's intro with the field `target` set to `value`. */
  function SetIntroField(intro: Record, target: nat, value: Option<Value>): (updated: Record)
    requires IsRecordOf(intro, IntroSchema()) && target < |IntroSchema()|
    requires value.Some? ==> value.value.StrV?
    ensures IsRecordOf(updated, IntroSchema())
    ensures updated[IntroSchema()[target].name] == value
    ensures forall k | k in intro && k != IntroSchema()[target].name :: k in updated && updated[k] == intro[k]
  {
    SchemasWellFormed();
    UpdateField(intro, IntroSchema(), target, value);
    intro[IntroSchema()[target].name := value]
  }

  /** A user's `intro` holds an `Intro` or `None`. */
  lemma IntroField(user: Record)
    requires IsRecordOf(user, UserSchema())
    ensures "intro" in user
    ensures user["intro"].Some? ==> user["intro"].value.RecV? && IsRecordOf(user["intro"].value.rec, IntroSchema())
  {
    FieldOf(user, UserSchema(), 6);
  }

  /** `user.state = None`. */
  function LeaveState(user: Record): (left: Record)
    requires IsRecordOf(user, UserSchema())
    ensures IsRecordOf(left, UserSchema())
    ensures "state" in left && left["state"] == None
    ensures forall k | k in user && k != "state" :: k in left && left[k] == user[k]
  {
    SchemasWellFormed();
    UpdateField(user, UserSchema(), 2, None);
    user["state" := None]
  }

  /**
    `handle_edit_states` on the user's record: setting a field of a missing
    intro raises AttributeError (`None` has no attribute `name`).
   */
  function EditStates(user: Record, text: string): (r: Result<Record>)
    requires IsRecordOf(user, UserSchema())
    ensures r.Ok? ==> IsRecordOf(r.value, UserSchema()) && "state" in r.value && r.value["state"] == None
    ensures r.Ok? ==> forall k | k in user && k != "state" && k != "intro" :: k in r.value && r.value[k] == user[k]
  {
    IntroField(user);
    SchemasWellFormed();
    FieldOf(user, UserSchema(), 2);
    var target := EditTarget(user["state"]);
    if ParseCommand(text) == Some(CancelCommand) || target.None? then
      Ok(LeaveState(user))
    else
      match user["intro"]
      case None => Err(AttributeError(IntroSchema()[target.value].name))
      case Some(intro) =>
        var edited := SetIntroField(intro.rec, target.value, EditValue(text));
        UpdateField(user, UserSchema(), 6, Some(RecV(edited)));
        Ok(LeaveState(user["intro" := Some(RecV(edited))]))
  }

  /** `handle_edit_states` fails only when it has a field to set and the user has no intro. */
  lemma EditStatesFails(user: Record, text: string)
    requires IsRecordOf(user, UserSchema())
    ensures "state" in user && "intro" in user
    ensures EditStates(user, text).Err? <==>
              && ParseCommand(text) != Some(CancelCommand)
              && EditTarget(user["state"]).Some?
              && user["intro"].None?
  {
    UserNames();
    IntroField(user);
  }

  /** `/cancel`, or a state that edits nothing, only leaves the state: the intro is kept. */
  lemma EditStatesKeepsIntro(user: Record, text: string)
    requires IsRecordOf(user, UserSchema())
    requires "state" in user
    requires ParseCommand(text) == Some(CancelCommand) || EditTarget(user["state"]).None?
    ensures EditStates(user, text) == Ok(user["state" := None])
  {
  }

  /**
    In state `edit_<field>`, any other message sets that intro field to the
    message text, or to `None` for `/empty`; the other intro fields stay.
   */
  lemma EditStatesSetsField(user: Record, text: string)
    requires IsRecordOf(user, UserSchema())
    requires "state" in user && "intro" in user
    requires ParseCommand(text) != Some(CancelCommand)
    requires EditTarget(user["state"]).Some? && user["intro"].Some? && user["intro"].value.RecV?
    ensures EditStates(user, text).Ok?
    ensures var edited := EditStates(user, text).value;
            var target := IntroSchema()[EditTarget(user["state"]).value].name;
            && "intro" in edited && edited["intro"].Some? && edited["intro"].value.RecV?
            && target in edited["intro"].value.rec
            && edited["intro"].value.rec[target] ==
                 (if ParseCommand(text) == Some(EmptyCommand) then None else Some(StrV(text)))
            && forall k | k in user["intro"].value.rec && k != target ::
                 k in edited["intro"].value.rec && edited["intro"].value.rec[k] == user["intro"].value.rec[k]
  {
    IntroField(user);
    var intro := user["intro"].value.rec;
    var target := EditTarget(user["state"]).value;
    var edited := SetIntroField(intro, target, EditValue(text));
    EditStatesEdits(user, text);
    var stored := user["intro" := Some(RecV(edited))];
    SchemasWellFormed();
    UpdateField(user, UserSchema(), 6, Some(RecV(edited)));
    var left := LeaveState(stored);
    assert "intro" in left && left["intro"] == Some(RecV(edited));
  }

  /** The record the editing branch stores: the intro with the field set, then the state left. */
  lemma EditStatesEdits(user: Record, text: string)
    requires IsRecordOf(user, UserSchema())
    requires "state" in user && "intro" in user
    requires ParseCommand(text) != Some(CancelCommand)
    requires EditTarget(user["state"]).Some? && user["intro"].Some? && user["intro"].value.RecV?
    requires IsRecordOf(user["intro"].value.rec, IntroSchema())
    ensures var edited := SetIntroField(user["intro"].value.rec, EditTarget(user["state"]).value, EditValue(text));
            && IsRecordOf(user["intro" := Some(RecV(edited))], UserSchema())
            && EditStates(user, text) == Ok(LeaveState(user["intro" := Some(RecV(edited))]))
  {
    var edited := SetIntroField(user["intro"].value.rec, EditTarget(user["state"]).value, EditValue(text));
    SchemasWellFormed();
    UpdateField(user, UserSchema(), 6, Some(RecV(edited)));
  }

  /** User 1, editing the city, whose intro holds only the name "Alex". */
  function EditingUser(): Record {
    AlexUser()["user_id" := Some(IntV(1))]["state" := Some(StrV("edit_city"))]
  }

  lemma EditingUserTyped()
    ensures IsRecordOf(EditingUser(), UserSchema())
  {
    AlexUserTyped();
    UserDistinct();
    UpdateField(AlexUser(), UserSchema(), 0, Some(IntV(1)));
    UpdateField(AlexUser()["user_id" := Some(IntV(1))], UserSchema(), 2, Some(StrV("edit_city")));
  }

  /** The user above is editing the city (intro field 1) and has an intro. */
  lemma EditingUserState()
    ensures "state" in EditingUser() && EditTarget(EditingUser()["state"]) == Some(1)
    ensures "intro" in EditingUser() && EditingUser()["intro"] == Some(RecV(AlexIntro()))
    ensures IntroSchema()[1].name == "city"
  {
  }

  lemma EmptyCommandParsed()
    ensures ParseCommand("/empty") == Some(EmptyCommand) && EmptyCommand != CancelCommand
  {
    assert "/empty"[1..] == EmptyCommand;
    assert StripSlashes(EmptyCommand) == EmptyCommand;
  }

  /** The user above after the handler: the city set to `city`, the name kept, the state left. */
  function EditedUser(city: Option<Value>): Record {
    EditingUser()["intro" := Some(RecV(AlexIntro()["city" := city]))]["state" := None]
  }

  /** Replying "Moscow" sets the city, keeps the name and leaves the state. */
  lemma EditCityReply()
    ensures IsRecordOf(EditingUser(), UserSchema())
    ensures EditStates(EditingUser(), "Moscow") == Ok(EditedUser(Some(StrV("Moscow"))))
  {
    EditingUserTyped();
    EditingUserState();
    AlexUserTyped();
    assert ParseCommand("Moscow") == None;
    EditStatesEdits(EditingUser(), "Moscow");
  }

  /** Replying `/empty` clears the city, keeps the name and leaves the state. */
  lemma EditCityEmpty()
    ensures IsRecordOf(EditingUser(), UserSchema())
    ensures EditStates(EditingUser(), "/empty") == Ok(EditedUser(None))
  {
    EditingUserTyped();
    EditingUserState();
    AlexUserTyped();
    EmptyCommandParsed();
    EditStatesEdits(EditingUser(), "/empty");
  }

  /** Replying `//cancel` changes nothing but the state. */
  lemma EditCityCancel()
    ensures IsRecordOf(EditingUser(), UserSchema())
    ensures EditStates(EditingUser(), "//cancel") == Ok(EditingUser()["state" := None])
  {
    EditingUserTyped();
    ParseCommandSlashes("//", "cancel");
    EditStatesKeepsIntro(EditingUser(), "//cancel");
  }
}
