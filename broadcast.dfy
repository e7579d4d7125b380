/**
 * Broadcasting a message to the bot's users: the two admin wizards (the per-course one in
 * `admin_broadcast.py` and the send-to-everyone one in `admin.py`), what each tries to send
 * to one recipient, and the fan-out loop that counts successes and failures.
 *
 * The transport is a parameter: `delivered(chat, send)` says whether that send to that chat
 * succeeds. For one recipient the sends are made in order and the first one that fails
 * raises, so the rest are not attempted and the recipient counts as a failure.
 */
module Broadcast {
  import opened Wrappers
  import opened Strings
  import opened Records

  // ------------------------------------------------------------ what is sent

  datatype Send = Photo(fileId: string, caption: Option<string>) | Text(text: string)

  /** One transport call: the chat and what was sent to it. */
  datatype Call = Call(chat: nat, send: Send)

  /** Telegram's limit on a photo caption, in characters. */
  const CaptionLimit: nat := 1024

  /** `if photo:` — a file id that is present and non-empty. */
  predicate HasPhoto(photo: Option<string>)
  {
    photo.Some? && photo.value != ""
  }

  /** The text a send delivers, as caption or as message. */
  function Carried(s: Send): Option<string>
  {
    match s
    case Photo(_, c) => c
    case Text(t) => Some(t)
  }

  /** The texts a sequence of sends delivers, in order. */
  function CarriedTexts(sends: seq<Send>): seq<string>
  {
    if |sends| == 0 then []
    else (if Carried(sends[0]).Some? then [Carried(sends[0]).value] else []) + CarriedTexts(sends[1..])
  }

  /**
   * What `confirm_broadcast` tries for each recipient: the photo with the text as caption
   * when it fits, otherwise the bare photo followed by the text, and only the text when
   * there is no photo. None when the text is missing: `len(None)` or a message without text
   * raises before any transport call.
   */
  function CaptionPlan(text: Option<string>, photo: Option<string>): (plan: Option<seq<Send>>)
    ensures plan.None? <==> text.None?
    ensures plan.Some? ==> 1 <= |plan.value| <= 2
    ensures plan.Some? ==> CarriedTexts(plan.value) == [text.value]
    ensures plan.Some? ==> (plan.value[0].Photo? <==> HasPhoto(photo))
    ensures plan.Some? && HasPhoto(photo) ==> plan.value[0].fileId == photo.value
    ensures plan.Some? ==> forall k :: 0 <= k < |plan.value| && plan.value[k].Photo? && plan.value[k].caption.Some? ==>
                             |plan.value[k].caption.value| <= CaptionLimit
    ensures plan.Some? ==> forall k :: 0 <= k < |plan.value| ==> k == 0 || plan.value[k].Text?
  {
    match text
    case None => None
    case Some(t) =>
      if HasPhoto(photo) then
        if |t| <= CaptionLimit then Some([Photo(photo.value, text)])
        else
          assert CarriedTexts([Text(t)]) == [t];
          Some([Photo(photo.value, None), Text(t)])
      else Some([Text(t)])
  }

  /**
   * What `admin.py` tries for each recipient: the photo captioned with the text (missing or
   * not, long or not), else the text. None when there is neither a photo nor a text.
   */
  function LegacyPlan(text: Option<string>, photo: Option<string>): (plan: Option<seq<Send>>)
    ensures plan.None? <==> !HasPhoto(photo) && text.None?
    ensures plan.Some? ==> |plan.value| == 1
    ensures plan.Some? ==> (plan.value[0].Photo? <==> HasPhoto(photo))
    ensures plan.Some? ==> Carried(plan.value[0]) == text
  {
    if HasPhoto(photo) then Some([Photo(photo.value, text)])
    else if text.Some? then Some([Text(text.value)])
    else None
  }

  /** The two wizards send the same thing whenever the text is there and fits in a caption. */
  lemma LegacyPlanAgrees(text: Option<string>, photo: Option<string>)
    requires text.Some? && |text.value| <= CaptionLimit
    ensures LegacyPlan(text, photo) == CaptionPlan(text, photo)
  {
  }

  /** Past the caption limit `admin.py` still asks for the whole text as a caption. */
  lemma LegacyPlanLongCaption(text: string, photo: string)
    requires photo != "" && |text| > CaptionLimit
    ensures LegacyPlan(Some(text), Some(photo)).value[0].caption == Some(text)
    ensures CaptionPlan(Some(text), Some(photo)).value[0].caption.None?
  {
  }

  // ------------------------------------------------------------ one recipient

  /** The sends a recipient is tried with: in order, up to and including the first failure. */
  function Attempted(chat: nat, sends: seq<Send>, delivered: (nat, Send) -> bool): (r: seq<Send>)
    ensures |r| <= |sends| && r == sends[..|r|]
    ensures |sends| > 0 ==> |r| > 0
    ensures forall k :: 0 <= k < |r| - 1 ==> delivered(chat, r[k])
    ensures |r| < |sends| ==> !delivered(chat, r[|r| - 1])
  {
    if |sends| == 0 then []
    else if delivered(chat, sends[0]) then
      var rest := Attempted(chat, sends[1..], delivered);
      assert sends == [sends[0]] + sends[1..];
      [sends[0]] + rest
    else [sends[0]]
  }

  /** The `try` block completes: the plan exists and every one of its sends goes through. */
  predicate RecipientOk(chat: nat, plan: Option<seq<Send>>, delivered: (nat, Send) -> bool)
  {
    plan.Some? && forall k :: 0 <= k < |plan.value| ==> delivered(chat, plan.value[k])
  }

  /** A recipient counts as a success exactly when all of its sends are attempted and none fails. */
  lemma RecipientOkAttempted(chat: nat, sends: seq<Send>, delivered: (nat, Send) -> bool)
    requires |sends| > 0
    ensures RecipientOk(chat, Some(sends), delivered) <==>
      Attempted(chat, sends, delivered) == sends && delivered(chat, sends[|sends| - 1])
  {
  }

  function CallsTo(chat: nat, sends: seq<Send>): (calls: seq<Call>)
    ensures |calls| == |sends|
    ensures forall k :: 0 <= k < |sends| ==> calls[k] == Call(chat, sends[k])
  {
    seq(|sends|, k requires 0 <= k < |sends| => Call(chat, sends[k]))
  }

  /** The transport calls made for one recipient. */
  function RecipientCalls(chat: nat, plan: Option<seq<Send>>, delivered: (nat, Send) -> bool): seq<Call>
  {
    if plan.None? then [] else CallsTo(chat, Attempted(chat, plan.value, delivered))
  }

  // ------------------------------------------------------------ all recipients

  /** `success` after the loop: the recipients whose sends all went through. */
  function Successes(chats: seq<nat>, plan: Option<seq<Send>>, delivered: (nat, Send) -> bool): (n: nat)
    ensures n <= |chats|
  {
    if |chats| == 0 then 0
    else Successes(chats[..|chats| - 1], plan, delivered) + (if RecipientOk(chats[|chats| - 1], plan, delivered) then 1 else 0)
  }

  /** Every transport call of the loop, recipient after recipient. */
  function CallLog(chats: seq<nat>, plan: Option<seq<Send>>, delivered: (nat, Send) -> bool): seq<Call>
  {
    if |chats| == 0 then []
    else CallLog(chats[..|chats| - 1], plan, delivered) + RecipientCalls(chats[|chats| - 1], plan, delivered)
  }

  /**
   * The loop of `confirm_broadcast` (and of `admin.py`): each recipient is tried with the
   * plan's sends in order until one fails, and counted once as a success or a failure.
   */
  method FanOut(chats: seq<nat>, plan: Option<seq<Send>>, delivered: (nat, Send) -> bool)
    returns (success: nat, fail: nat, calls: seq<Call>)
    ensures success == Successes(chats, plan, delivered)
    ensures success + fail == |chats|
    ensures calls == CallLog(chats, plan, delivered)
  {
    success, fail, calls := 0, 0, [];
    var i := 0;
    while i < |chats|
      invariant 0 <= i <= |chats|
      invariant success == Successes(chats[..i], plan, delivered)
      invariant success + fail == i
      invariant calls == CallLog(chats[..i], plan, delivered)
    {
      var ok, tried := TryRecipient(chats[i], plan, delivered);
      assert chats[..i + 1][..i] == chats[..i] && chats[..i + 1][i] == chats[i];
      calls := calls + CallsTo(chats[i], tried);
      if ok {
        success := success + 1;
      } else {
        fail := fail + 1;
      }
      i := i + 1;
    }
    assert chats[..i] == chats;
  }

  /** The `try` block for one recipient: the plan's sends in order, stopping at the first that fails. */
  method TryRecipient(chat: nat, plan: Option<seq<Send>>, delivered: (nat, Send) -> bool)
    returns (ok: bool, tried: seq<Send>)
    ensures ok == RecipientOk(chat, plan, delivered)
    ensures CallsTo(chat, tried) == RecipientCalls(chat, plan, delivered)
  {
    if plan.None? {
      return false, [];
    }
    var sends := plan.value;
    ok, tried := true, [];
    var j := 0;
    while j < |sends| && ok
      invariant 0 <= j <= |sends|
      invariant tried == sends[..j]
      invariant ok ==> forall k :: 0 <= k < j ==> delivered(chat, sends[k])
      invariant !ok ==> 0 < j && (forall k :: 0 <= k < j - 1 ==> delivered(chat, sends[k])) && !delivered(chat, sends[j - 1])
    {
      tried := tried + [sends[j]];
      ok := delivered(chat, sends[j]);
      j := j + 1;
    }
    if ok {
      AttemptedAll(chat, sends, delivered);
      assert tried == sends;
    } else {
      AttemptedStops(chat, sends, delivered, j);
    }
  }

  lemma {:induction false} AttemptedAll(chat: nat, sends: seq<Send>, delivered: (nat, Send) -> bool)
    requires forall k :: 0 <= k < |sends| ==> delivered(chat, sends[k])
    ensures Attempted(chat, sends, delivered) == sends
  {
    if |sends| > 0 {
      AttemptedAll(chat, sends[1..], delivered);
    }
  }

  lemma {:induction false} AttemptedStops(chat: nat, sends: seq<Send>, delivered: (nat, Send) -> bool, j: nat)
    requires 0 < j <= |sends|
    requires forall k :: 0 <= k < j - 1 ==> delivered(chat, sends[k])
    requires !delivered(chat, sends[j - 1])
    ensures Attempted(chat, sends, delivered) == sends[..j]
  {
    if j > 1 {
      AttemptedStops(chat, sends[1..], delivered, j - 1);
      assert sends[..j] == [sends[0]] + sends[1..][..j - 1];
    }
  }

  /** With no plan nobody is reached and nobody succeeds. */
  lemma {:induction false} NoPlanNoCalls(chats: seq<nat>, delivered: (nat, Send) -> bool)
    ensures Successes(chats, None, delivered) == 0 && CallLog(chats, None, delivered) == []
  {
    if |chats| > 0 {
      NoPlanNoCalls(chats[..|chats| - 1], delivered);
    }
  }

  /** Every recipient is tried at least once and at most once per send of the plan. */
  lemma {:induction false} CallLogBounds(chats: seq<nat>, sends: seq<Send>, delivered: (nat, Send) -> bool)
    ensures |sends| > 0 ==> |chats| <= |CallLog(chats, Some(sends), delivered)|
    ensures |CallLog(chats, Some(sends), delivered)| <= |chats| * |sends|
  {
    if |chats| > 0 {
      var front := chats[..|chats| - 1];
      CallLogBounds(front, sends, delivered);
      assert |RecipientCalls(chats[|chats| - 1], Some(sends), delivered)| <= |sends|;
      MulSucc(|front|, |sends|);
    }
  }

  /** A transport that never fails reaches every recipient with the whole plan. */
  lemma {:induction false} AllDelivered(chats: seq<nat>, sends: seq<Send>, delivered: (nat, Send) -> bool)
    requires forall c, s :: delivered(c, s)
    ensures Successes(chats, Some(sends), delivered) == |chats|
    ensures |CallLog(chats, Some(sends), delivered)| == |chats| * |sends|
  {
    if |chats| > 0 {
      var front := chats[..|chats| - 1];
      AllDelivered(front, sends, delivered);
      assert |Attempted(chats[|chats| - 1], sends, delivered)| == |sends|;
      MulSucc(|front|, |sends|);
    }
  }

  /** Every recipient appears in the call log, and nobody else does. */
  lemma {:induction false} CallLogChats(chats: seq<nat>, sends: seq<Send>, delivered: (nat, Send) -> bool)
    requires |sends| > 0
    ensures forall c :: c in chats ==>
      exists k :: 0 <= k < |CallLog(chats, Some(sends), delivered)| && CallLog(chats, Some(sends), delivered)[k].chat == c
    ensures forall k :: 0 <= k < |CallLog(chats, Some(sends), delivered)| ==> CallLog(chats, Some(sends), delivered)[k].chat in chats
  {
    if |chats| > 0 {
      var front := chats[..|chats| - 1];
      var last := chats[|chats| - 1];
      CallLogChats(front, sends, delivered);
      var before := CallLog(front, Some(sends), delivered);
      var log := CallLog(chats, Some(sends), delivered);
      assert log == before + RecipientCalls(last, Some(sends), delivered);
      assert log[|before|].chat == last;
      forall c | c in chats
        ensures exists k :: 0 <= k < |log| && log[k].chat == c
      {
        if c != last {
          assert c in front;
          var k :| 0 <= k < |before| && before[k].chat == c;
          assert log[k] == before[k];
        }
      }
      forall k | 0 <= k < |log| ensures log[k].chat in chats {
        if k < |before| {
          assert log[k] == before[k];
          assert before[k].chat in front;
        }
      }
    }
  }

  // ------------------------------------------------------------ recipients

  predicate UniqueTgIds(users: seq<User>)
  {
    forall i, j :: 0 <= i < j < |users| ==> users[i].tgId != users[j].tgId
  }

  predicate NoDuplicates<T(==)>(s: seq<T>)
  {
    forall i, j :: 0 <= i < j < |s| ==> s[i] != s[j]
  }

  predicate Enrolled(u: User, selected: seq<nat>)
  {
    u.courseId.Some? && u.courseId.value in selected
  }

  /** `select(User.tg_id).where(User.course_id.in_(course_ids))`, in table order. */
  function Recipients(users: seq<User>, selected: seq<nat>): (chats: seq<nat>)
    ensures |chats| <= |users|
    ensures forall t :: t in chats <==> exists u :: u in users && u.tgId == t && Enrolled(u, selected)
  {
    if |users| == 0 then []
    else
      assert users == [users[0]] + users[1..];
      (if Enrolled(users[0], selected) then [users[0].tgId] else []) + Recipients(users[1..], selected)
  }

  /** Telegram ids are unique, so nobody is sent the broadcast twice. */
  lemma {:induction false} RecipientsDistinct(users: seq<User>, selected: seq<nat>)
    requires UniqueTgIds(users)
    ensures NoDuplicates(Recipients(users, selected))
  {
    if |users| > 0 {
      assert UniqueTgIds(users[1..]);
      RecipientsDistinct(users[1..], selected);
      var rest := Recipients(users[1..], selected);
      if Enrolled(users[0], selected) {
        assert users[0].tgId !in rest;
        var r := [users[0].tgId] + rest;
        forall i, j | 0 <= i < j < |r| ensures r[i] != r[j] {
          if i > 0 { assert r[i] == rest[i - 1] && r[j] == rest[j - 1]; }
          else { assert r[j] in rest; }
        }
      }
    }
  }

  /** `select(User.tg_id)`: every user, in table order. */
  function AllRecipients(users: seq<User>): (chats: seq<nat>)
    ensures |chats| == |users|
    ensures forall i :: 0 <= i < |users| ==> chats[i] == users[i].tgId
  {
    seq(|users|, i requires 0 <= i < |users| => users[i].tgId)
  }

  // ------------------------------------------------------------ course choice

  const CourseMark: string := "🎯 "
  const FinishLabel: string := "✅ Завершить выбор"

  /** The reply button offered for a course. */
  function CourseOption(c: Course): string
  {
    CourseMark + c.name
  }

  /** `message.text[2:]`: the name read back from a pressed course button. */
  function CourseNameOf(text: string): string
  {
    if |text| >= 2 then text[2..] else ""
  }

  /** Pressing a course's button names that course, and only course buttons start with the mark. */
  lemma CourseOptionRoundTrip(c: Course)
    ensures StartsWith(CourseOption(c), "🎯") && CourseNameOf(CourseOption(c)) == c.name
    ensures !StartsWith(FinishLabel, "🎯")
  {
    assert CourseOption(c)[..1] == "🎯";
    assert CourseOption(c)[2..] == c.name;
    assert FinishLabel[0] == '✅';
  }

  /** The selection after `select_course`: the named course's id appended unless already there. */
  function SelectAfter(selected: seq<nat>, courses: seq<Course>, name: string): (r: seq<nat>)
    ensures r == selected || (|r| == |selected| + 1 && r[..|selected|] == selected)
    ensures forall id :: id in r ==> id in selected || exists c :: c in courses && c.name == name && c.id == id
  {
    match FindCourseByName(courses, name)
    case Some(c) => if c.id in selected then selected else (assert (selected + [c.id])[..|selected|] == selected; selected + [c.id])
    case None => selected
  }

  /** The selection never holds a course twice. */
  lemma SelectAfterDistinct(selected: seq<nat>, courses: seq<Course>, name: string)
    requires NoDuplicates(selected)
    ensures NoDuplicates(SelectAfter(selected, courses, name))
  {
    var r := SelectAfter(selected, courses, name);
    if r != selected {
      forall i, j | 0 <= i < j < |r| ensures r[i] != r[j] {
        if j == |selected| { assert r[i] == selected[i]; } else { assert r[i] == selected[i] && r[j] == selected[j]; }
      }
    }
  }

  /** Choosing the same course twice changes nothing the second time. */
  lemma SelectAfterIdempotent(selected: seq<nat>, courses: seq<Course>, name: string)
    ensures SelectAfter(SelectAfter(selected, courses, name), courses, name) == SelectAfter(selected, courses, name)
  {
    var once := SelectAfter(selected, courses, name);
    if once != selected {
      assert once[|selected|] in once;
    }
  }

  /** A name no course carries leaves the selection as it is. */
  lemma SelectAfterUnknown(selected: seq<nat>, courses: seq<Course>, name: string)
    requires forall c :: c in courses ==> c.name != name
    ensures SelectAfter(selected, courses, name) == selected
  {
  }

  // ------------------------------------------------------------ the wizards

  /** The states of `BroadcastState`, and no state at all. */
  datatype Step = Idle | WaitingForText | WaitingForPhoto | WaitingForProject | WaitingForCourses
                | WaitingForCourseSearch | Confirmation

  /** An incoming message: its text, if any, and the sizes of its photo, smallest first. */
  datatype Message = Message(text: Option<string>, photoIds: seq<string>)

  datatype Reply =
    | AskText
    | AskPhoto
    | RepeatPhoto
    | AskCourses(options: seq<string>)
    | CourseAdded(name: string)
    | NoReply
    | Crashed
    | NoCourseSelected
    | Finished(success: nat, fail: nat, calls: seq<Call>)
    | Cancelled

  /** The reply keyboard of the course step: one button per course, then the finish button. */
  function CourseOptions(courses: seq<Course>): (options: seq<string>)
    ensures |options| == |courses| + 1 && options[|courses|] == FinishLabel
    ensures forall i :: 0 <= i < |courses| ==> options[i] == CourseOption(courses[i])
  {
    seq(|courses|, i requires 0 <= i < |courses| => CourseOption(courses[i])) + [FinishLabel]
  }

  /** The per-course wizard of `admin_broadcast.py`; its fields are the FSM state and data. */
  class BroadcastSession {
    var step: Step
    var text: Option<string>
    var photo: Option<string>
    var selected: seq<nat>

    constructor ()
      ensures step == Idle && text.None? && photo.None? && selected == []
    {
      step, text, photo, selected := Idle, None, None, [];
    }

    /** `start_broadcast`: any state; the data is kept. */
    method Start() returns (reply: Reply)
      modifies this
      ensures step == WaitingForText && reply == AskText
      ensures text == old(text) && photo == old(photo) && selected == old(selected)
    {
      step := WaitingForText;
      reply := AskText;
    }

    /** `get_broadcast_text`: stores the message's text, which is missing for a message without text. */
    method ReceiveText(m: Message) returns (reply: Reply)
      requires step == WaitingForText
      modifies this
      ensures step == WaitingForPhoto && text == m.text && reply == AskPhoto
      ensures photo == old(photo) && selected == old(selected)
    {
      text := m.text;
      step := WaitingForPhoto;
      reply := AskPhoto;
    }

    /**
     * `get_broadcast_photo`: the largest photo size, or no photo on `/skip`; anything else is
     * asked again. Moving on offers every course and empties the selection.
     */
    method ReceivePhoto(m: Message, courses: seq<Course>) returns (reply: Reply)
      requires step == WaitingForPhoto
      modifies this
      ensures var accepted := |m.photoIds| > 0 || m.text == Some("/skip");
        && (accepted ==>
              && photo == (if |m.photoIds| > 0 then Some(m.photoIds[|m.photoIds| - 1]) else None)
              && step == WaitingForCourses && selected == [] && reply == AskCourses(CourseOptions(courses)))
        && (!accepted ==>
              && reply == RepeatPhoto && step == old(step) && photo == old(photo) && selected == old(selected))
      ensures text == old(text)
    {
      if |m.photoIds| > 0 {
        photo := Some(m.photoIds[|m.photoIds| - 1]);
      } else if m.text == Some("/skip") {
        photo := None;
      } else {
        reply := RepeatPhoto;
        return;
      }
      step := WaitingForCourses;
      selected := [];
      reply := AskCourses(CourseOptions(courses));
    }

    /** `select_course`, for a message starting with the course mark. */
    method SelectCourse(messageText: string, courses: seq<Course>) returns (reply: Reply)
      requires step == WaitingForCourses && StartsWith(messageText, "🎯")
      modifies this
      ensures selected == SelectAfter(old(selected), courses, CourseNameOf(messageText))
      ensures step == old(step) && text == old(text) && photo == old(photo)
      ensures reply.CourseAdded? <==> selected != old(selected)
      ensures reply.CourseAdded? || reply.NoReply?
    {
      var name := CourseNameOf(messageText);
      match FindCourseByName(courses, name)
      case None =>
        reply := NoReply;
      case Some(c) =>
        if c.id !in selected {
          selected := selected + [c.id];
          reply := CourseAdded(c.name);
        } else {
          reply := NoReply;
        }
    }

    method Clear()
      modifies this
      ensures step == Idle && text.None? && photo.None? && selected == []
    {
      step, text, photo, selected := Idle, None, None, [];
    }

    /**
     * `confirm_broadcast`, for the finish button: with no course chosen it warns and keeps
     * the wizard; otherwise it sends to every user enrolled in a chosen course, reports the
     * counts and clears the wizard.
     */
    method Confirm(users: seq<User>, delivered: (nat, Send) -> bool) returns (reply: Reply)
      requires step == WaitingForCourses
      modifies this
      ensures old(selected) == [] ==>
        reply == NoCourseSelected && step == old(step) && text == old(text) && photo == old(photo) && selected == []
      ensures old(selected) != [] ==>
        var chats := Recipients(users, old(selected));
        var plan := CaptionPlan(old(text), old(photo));
        && reply == Finished(Successes(chats, plan, delivered), |chats| - Successes(chats, plan, delivered),
                             CallLog(chats, plan, delivered))
        && step == Idle && text.None? && photo.None? && selected == []
    {
      if selected == [] {
        reply := NoCourseSelected;
        return;
      }
      var chats := Recipients(users, selected);
      var success, fail, calls := FanOut(chats, CaptionPlan(text, photo), delivered);
      Clear();
      reply := Finished(success, fail, calls);
    }

    /** `cancel_broadcast`, for the cancel button in the confirmation state. */
    method Cancel() returns (reply: Reply)
      requires step == Confirmation
      modifies this
      ensures step == Idle && text.None? && photo.None? && selected == [] && reply == Cancelled
    {
      Clear();
      reply := Cancelled;
    }
  }

  /** The send-to-everyone wizard of `admin.py`. */
  class LegacyBroadcastSession {
    var step: Step
    var text: Option<string>

    constructor ()
      ensures step == Idle && text.None?
    {
      step, text := Idle, None;
    }

    /** `start_broadcast`: any state; the data is kept. */
    method Start() returns (reply: Reply)
      modifies this
      ensures step == WaitingForText && text == old(text) && reply == AskText
    {
      step := WaitingForText;
      reply := AskText;
    }

    /** `get_broadcast_text`. */
    method ReceiveText(m: Message) returns (reply: Reply)
      requires step == WaitingForText
      modifies this
      ensures step == WaitingForPhoto && text == m.text && reply == AskPhoto
    {
      text := m.text;
      step := WaitingForPhoto;
      reply := AskPhoto;
    }

    /**
     * `get_broadcast_photo`: a photo, or "нет" in any letter case for none, sends to every
     * user and clears the wizard; other text is asked again; a message with neither photo
     * nor text raises on `None.lower()` and leaves the wizard as it was.
     */
    method ReceivePhoto(m: Message, users: seq<User>, delivered: (nat, Send) -> bool) returns (reply: Reply)
      requires step == WaitingForPhoto
      modifies this
      ensures |m.photoIds| == 0 && m.text.None? ==> reply == Crashed && step == old(step) && text == old(text)
      ensures |m.photoIds| == 0 && m.text.Some? && ToLower(m.text.value) != "нет" ==>
        reply == RepeatPhoto && step == old(step) && text == old(text)
      ensures |m.photoIds| > 0 || (m.text.Some? && ToLower(m.text.value) == "нет") ==>
        var photo := if |m.photoIds| > 0 then Some(m.photoIds[|m.photoIds| - 1]) else None;
        var chats := AllRecipients(users);
        var plan := LegacyPlan(old(text), photo);
        && reply == Finished(Successes(chats, plan, delivered), |chats| - Successes(chats, plan, delivered),
                             CallLog(chats, plan, delivered))
        && step == Idle && text.None?
    {
      var photo: Option<string>;
      if |m.photoIds| > 0 {
        photo := Some(m.photoIds[|m.photoIds| - 1]);
      } else if m.text.None? {
        reply := Crashed;
        return;
      } else if ToLower(m.text.value) == "нет" {
        photo := None;
      } else {
        reply := RepeatPhoto;
        return;
      }
      var success, fail, calls := FanOut(AllRecipients(users), LegacyPlan(text, photo), delivered);
      step, text := Idle, None;
      reply := Finished(success, fail, calls);
    }
  }
}
