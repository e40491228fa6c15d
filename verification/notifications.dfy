/**
  The text of the "new file" notification, `Notification.create_file_notification`
  (core/models.py).  The row it inserts is built here; the insert itself is
  `Store.Portal.CreateNotification`.
*/
module Notifications {
  import opened Entities

  /** Python truthiness of an optional batch code: present and non-empty. */
  predicate Given(code: Option<string>) {
    code.Some? && code.value != ""
  }

  const TitlePrefix: string := "New "
  const TitleSuffix: string := " File Available"

  /** The subject can be read back from a title. */
  function SubjectOfTitle(t: string): string
    requires |t| >= |TitlePrefix| + |TitleSuffix|
  {
    t[|TitlePrefix|..|t| - |TitleSuffix|]
  }

  /** "New {subject} File Available", from which the subject reads back. */
  function FileTitle(subject: string): (t: string)
    ensures |t| >= |TitlePrefix| + |TitleSuffix| && SubjectOfTitle(t) == subject
  {
    var t := TitlePrefix + subject + TitleSuffix;
    assert t[|TitlePrefix|..|t| - |TitleSuffix|] == subject;
    t
  }

  /** Distinct subjects get distinct titles. */
  lemma TitleInjective(a: string, b: string)
    requires FileTitle(a) == FileTitle(b)
    ensures a == b
  {
  }

  /** The opening both variants share. */
  function SharedLead(topic: string): string {
    "A new file '" + topic + "' has been shared "
  }

  function BatchMessage(topic: string, teacherName: string, code: string): string {
    SharedLead(topic) + "by " + teacherName + " for your batch (" + code + ")"
  }

  function PersonalMessage(topic: string, teacherName: string): string {
    SharedLead(topic) + "with you by " + teacherName
  }

  function BatchSuffix(code: Option<string>): string {
    if Given(code) then " (Batch: " + code.value + ")" else ""
  }

  /**
    The row `create_file_notification` inserts: owned by `user`, unread, titled
    after the subject, with the batch variant of the message only for a batch
    upload that names a code, and otherwise the personal variant, followed by
    the batch code whenever one is given.
  */
  function FileNotification(user: nat, subject: string, topic: string, teacherName: string,
                            batchCode: Option<string>, isBatchUpload: bool): (n: Notification)
    ensures n.userId == user && !n.isRead
    ensures n.title == FileTitle(subject)
    ensures isBatchUpload && Given(batchCode) ==> n.message == BatchMessage(topic, teacherName, batchCode.value)
    ensures !(isBatchUpload && Given(batchCode)) ==>
      n.message == PersonalMessage(topic, teacherName) + BatchSuffix(batchCode)
  {
    var message :=
      if isBatchUpload && Given(batchCode) then BatchMessage(topic, teacherName, batchCode.value)
      else PersonalMessage(topic, teacherName) + BatchSuffix(batchCode);
    Notification(user, FileTitle(subject), message, false)
  }

  /** A batch upload without a usable code reads exactly like a personal share without one. */
  lemma BatchFlagNeedsCode(user: nat, subject: string, topic: string, teacherName: string, batchCode: Option<string>)
    requires !Given(batchCode)
    ensures FileNotification(user, subject, topic, teacherName, batchCode, true)
         == FileNotification(user, subject, topic, teacherName, None, false)
  {
  }

  /**
    For the same topic and teacher the two variants never coincide, so a
    recipient can tell a batch notice from a personal one.
  */
  lemma VariantsDiffer(topic: string, teacherName: string, code: string, personalCode: Option<string>)
    ensures BatchMessage(topic, teacherName, code) != PersonalMessage(topic, teacherName) + BatchSuffix(personalCode)
  {
    var lead := SharedLead(topic);
    assert BatchMessage(topic, teacherName, code)[|lead|] == 'b';
    assert (PersonalMessage(topic, teacherName) + BatchSuffix(personalCode))[|lead|] == 'w';
  }
}
