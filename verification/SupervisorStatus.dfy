/** The dispatcher's status documents and the sequence they are read in
    (deploy/supervisor/native_ingest_supervisor.py). */
module SupervisorStatus {
  import opened GoText
  import opened Options

  const STATUS_SCHEMA := "sandbox-dispatcher-status-v1"
  const STATUS_STATES := {"running", "red", "stopping"}
  const ROLE_STATES := {"empty", "handed_off", "ready", "busy", "reaped", "red"}
  const OWNED_STATES := {"handed_off", "ready", "busy", "reaped"}
  const ROLES := {"OFFICE", "PDF"}

  /** Times are microseconds. */
  const SECOND := 1_000_000

  datatype RoleStatus = RoleStatus(state: string, handoff: Option<string>, leaseDeadline: Option<int>)

  /** A status document whose fields have their JSON types and parsed time stamps; stamps: their texts. Two
      spellings of one moment make two documents. */
  datatype Document = Document(schema: string, epoch: string, sequence: int, writtenAt: int, validUntil: int,
                               state: string, roles: map<string, RoleStatus>, stamps: seq<string>)

  predicate IsEpoch(s: string) {
    |s| == 32 && LowerHex(s)
  }

  predicate IsAlphanumeric(c: char) {
    '0' <= c <= '9' || 'a' <= c <= 'z' || 'A' <= c <= 'Z'
  }

  predicate IsHandoffId(s: string) {
    && 32 <= |s| <= 128 && IsAlphanumeric(s[0])
    && forall i :: 0 <= i < |s| ==> IsAlphanumeric(s[i]) || s[i] in "._-"
  }

  /** The failure code of one role, or "" for none. */
  function RoleFault(role: RoleStatus, state: string, writtenAt: int): string {
    if role.state !in ROLE_STATES then "STATUS_ROLE_STATE_INVALID"
    else if role.leaseDeadline.Some? != (role.state == "busy") then "STATUS_ROLE_FIELDS_INVALID"
    else if role.state == "empty" && role.handoff.Some? then "STATUS_ROLE_ID_INVALID"
    else if role.handoff.Some? && !IsHandoffId(role.handoff.value) then "STATUS_ROLE_ID_INVALID"
    else if role.state in OWNED_STATES && role.handoff.None? then "STATUS_ROLE_ID_INVALID"
    else if role.state == "busy" && role.leaseDeadline.value <= writtenAt then "STATUS_LEASE_INVALID"
    else if role.state == "red" && state != "red" then "STATUS_RED_MISMATCH"
    else ""
  }

  /** validate_status_document: the failure code, or "" for an acceptable document. */
  function StatusFault(document: Document, now: int): string {
    if document.schema != STATUS_SCHEMA then "STATUS_SCHEMA_INVALID"
    else if !IsEpoch(document.epoch) then "STATUS_EPOCH_INVALID"
    else if document.sequence <= 0 then "STATUS_SEQUENCE_INVALID"
    else if document.state !in STATUS_STATES then "STATUS_STATE_INVALID"
    else if document.writtenAt > now + SECOND then "STATUS_FROM_FUTURE"
    else if document.validUntil - document.writtenAt != 5 * SECOND then "STATUS_VALIDITY_INVALID"
    else if document.validUntil <= now then "STATUS_STALE"
    else if document.roles.Keys != ROLES then "STATUS_ROLES_INVALID"
    else
      var office := RoleFault(document.roles["OFFICE"], document.state, document.writtenAt);
      var pdf := RoleFault(document.roles["PDF"], document.state, document.writtenAt);
      if office != "" then office
      else if pdf != "" then pdf
      else if document.state == "red" && exists r :: r in document.roles && document.roles[r].state != "red"
      then "STATUS_RED_MISMATCH"
      else ""
  }

  /** A role of the document is in a state for one handoff. */
  predicate Shows(document: Document, role: string, state: string, handoff: string) {
    role in document.roles && document.roles[role].state == state && document.roles[role].handoff == Some(handoff)
  }

  /** Red is all or nothing: the dispatcher, some role and every role are red together. */
  lemma RedIsGlobal(document: Document, now: int)
    requires StatusFault(document, now) == ""
    ensures document.state == "red" <==> exists r :: r in document.roles && document.roles[r].state == "red"
    ensures document.state == "red" <==> forall r :: r in document.roles ==> document.roles[r].state == "red"
  {
    assert "OFFICE" in document.roles && "PDF" in document.roles;
    forall r | r in document.roles ensures r == "OFFICE" || r == "PDF" {
      assert r in ROLES;
    }
  }

  /** An acceptable document is at most a second ahead of the reader and less than five behind. */
  lemma AcceptedIsFresh(document: Document, now: int)
    requires StatusFault(document, now) == ""
    ensures now - 5 * SECOND < document.writtenAt <= now + SECOND
    ensures forall later :: StatusFault(document, later) == "" ==> -6 * SECOND < later - now < 6 * SECOND
  {
  }

  /** A role entry is sound: known state, a lease exactly when busy and ending after the writing, a well-formed
      handoff id exactly where one is due, red only under a red dispatcher. */
  ghost predicate SoundRole(role: RoleStatus, state: string, writtenAt: int) {
    && role.state in {"empty", "handed_off", "ready", "busy", "reaped", "red"}
    && (role.leaseDeadline.Some? <==> role.state == "busy") && (role.state == "busy" ==> writtenAt < role.leaseDeadline.value)
    && (role.state == "empty" ==> role.handoff.None?) && (role.state in {"handed_off", "ready", "busy", "reaped"} ==> role.handoff.Some?)
    && (role.handoff.Some? ==> IsHandoffId(role.handoff.value)) && (role.state == "red" ==> state == "red")
  }

  lemma RoleExactly(role: RoleStatus, state: string, writtenAt: int)
    ensures RoleFault(role, state, writtenAt) == "" <==> SoundRole(role, state, writtenAt)
  {
  }

  /** Exactly these documents are acceptable: of the schema, with a well-formed epoch, a positive sequence and a
      known state, valid for five seconds from a moment at most one second ahead, not yet over, with two sound roles
      that are all red when the dispatcher is. */
  lemma AcceptableExactly(d: Document, now: int)
    ensures StatusFault(d, now) == "" <==>
            && d.schema == "sandbox-dispatcher-status-v1" && |d.epoch| == 32 && (forall c :: c in d.epoch ==> IsHexDigit(c))
            && d.sequence >= 1 && d.state in {"running", "red", "stopping"}
            && d.writtenAt - 1_000_000 <= now < d.validUntil && d.validUntil == d.writtenAt + 5_000_000
            && d.roles.Keys == {"OFFICE", "PDF"}
            && SoundRole(d.roles["OFFICE"], d.state, d.writtenAt) && SoundRole(d.roles["PDF"], d.state, d.writtenAt)
            && (d.state == "red" ==> d.roles["OFFICE"].state == "red" && d.roles["PDF"].state == "red")
  {
    LowerHexExactly(d.epoch);
    if d.roles.Keys == ROLES {
      RoleExactly(d.roles["OFFICE"], d.state, d.writtenAt);
      RoleExactly(d.roles["PDF"], d.state, d.writtenAt);
      assert "OFFICE" in d.roles.Keys && "PDF" in d.roles.Keys;
      assert forall r :: r in d.roles.Keys ==> r == "OFFICE" || r == "PDF";
    }
  }

  /** By code: a letter, a digit, or one of - . _ */
  predicate IsHandoffCode(c: int) {
    48 <= c <= 57 || 65 <= c <= 90 || 97 <= c <= 122 || c == 45 || c == 46 || c == 95
  }

  lemma HandoffChar(c: char)
    ensures IsAlphanumeric(c) || c in "._-" <==> IsHandoffCode(c as int)
    ensures c in "._-" <==> c as int == 45 || c as int == 46 || c as int == 95
    ensures IsAlphanumeric(c) ==> c !in "._-"
  {
    assert "._-"[0] == '.' && "._-"[1] == '_' && "._-"[2] == '-';
    assert c in "._-" <==> c == '.' || c == '_' || c == '-';
  }

  /** 32 to 128 such characters, beginning with a letter or digit. */
  lemma HandoffIdExactly(s: string)
    ensures IsHandoffId(s) <==>
            && 32 <= |s| <= 128 && s[0] !in "._-" && forall c :: c in s ==> IsHandoffCode(c as int)
  {
    forall c | c in s ensures IsAlphanumeric(c) || c in "._-" <==> IsHandoffCode(c as int) {
      HandoffChar(c);
    }
    if |s| > 0 {
      HandoffChar(s[0]);
      assert s[0] in s;
    }
  }

  /** The next document of one epoch: never older, and the same under the same number. */
  ghost predicate Continues(last: Option<Document>, document: Document) {
    last.Some? ==>
      && document.epoch == last.value.epoch && last.value.sequence <= document.sequence
      && (document.sequence == last.value.sequence ==> document == last.value)
  }

  /** Pins one dispatcher epoch and rejects rollback or same-sequence rewrites. */
  class StatusSequence {
    var epoch: Option<string>
    var sequence: int
    var lastDocument: Option<Document>

    constructor ()
      ensures epoch == None && sequence == 0 && lastDocument == None
    {
      epoch, sequence, lastDocument := None, 0, None;
    }

    /** The fields are those of the last accepted document. */
    ghost predicate Valid()
      reads this
    {
      if lastDocument.Some? then
        epoch == Some(lastDocument.value.epoch) && sequence == lastDocument.value.sequence
      else epoch == None && sequence == 0
    }

    method Accept(document: Document) returns (fault: string)
      requires Valid() && document.sequence > 0
      modifies this
      ensures Valid()
      ensures fault == "" <==> Continues(old(lastDocument), document)
      ensures lastDocument == if fault == "" then Some(document) else old(lastDocument)
      ensures fault in {"", "STATUS_EPOCH_CHANGED", "STATUS_SEQUENCE_ROLLBACK", "STATUS_SEQUENCE_REWRITTEN"}
    {
      if epoch == None {
        epoch := Some(document.epoch);
      }
      if document.epoch != epoch.value {
        return "STATUS_EPOCH_CHANGED";
      }
      if document.sequence < sequence {
        return "STATUS_SEQUENCE_ROLLBACK";
      }
      if document.sequence == sequence && lastDocument.Some? && document != lastDocument.value {
        return "STATUS_SEQUENCE_REWRITTEN";
      }
      sequence := document.sequence;
      lastDocument := Some(document);
      return "";
    }
  }
}
