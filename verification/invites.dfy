/** Invitations: the rendering of an invite document, and the shared
    handlers that create, list and block invites for the two kinds of
    user a controller can invite. */
module Invites {
  import opened Common
  import opened Records

  /** An invite document; `status` is 0 active, 1 used, anything else
      blocked. */
  datatype Invite = Invite(id: Id, role: string, email: string, createdAt: int, status: int)

  /** The rendered invite: no `_id`, the token in its place, the status as
      text. */
  datatype InviteJson = InviteJson(role: string, email: string, createdAt: int, status: string, inviteToken: Id)

  const ActiveStatus := 0
  const BlockedStatus := 2

  function StatusText(status: int): (t: string)
    ensures t == "Active" <==> status == 0
    ensures t == "Used" <==> status == 1
    ensures t == "Blocked" <==> status != 0 && status != 1
  {
    if status == 0 then "Active" else if status == 1 then "Used" else "Blocked"
  }

  /** `toJson`. */
  function ToJson(i: Invite): (j: InviteJson)
    ensures j.inviteToken == i.id
    ensures j.role == i.role && j.email == i.email && j.createdAt == i.createdAt
    ensures j.status == StatusText(i.status)
  {
    InviteJson(i.role, i.email, i.createdAt, StatusText(i.status), i.id)
  }

  /** One kind of user a controller invites: its role and its wording. */
  datatype InviteKind = InviteKind(role: string, msg: string)

  /** The two kinds configured for a controller. */
  datatype InviteOptions = InviteOptions(first: InviteKind, second: InviteKind)

  /** The kind a request picks: the first when `type` is true. */
  function ChosenKind(options: InviteOptions, typeFlag: bool): (k: InviteKind)
    ensures typeFlag ==> k == options.first
    ensures !typeFlag ==> k == options.second
  {
    if typeFlag then options.first else options.second
  }

  /** Whether an active invite to the address exists. */
  predicate HasActive(invites: seq<Invite>, email: string)
  {
    invites != [] && ((invites[0].email == email && invites[0].status == ActiveStatus) || HasActive(invites[1..], email))
  }

  lemma {:induction false} HasActiveIff(invites: seq<Invite>, email: string)
    ensures HasActive(invites, email) <==> exists i :: i in invites && i.email == email && i.status == ActiveStatus
  {
    if invites != [] {
      HasActiveIff(invites[1..], email);
      assert forall i :: i in invites <==> i == invites[0] || i in invites[1..];
    }
  }

  /** `getInvites`: the invites of the two configured roles, rendered, in
      store order (the final ordering sorts on a key every rendered invite
      shares, so it keeps that order). */
  function ListInvites(invites: seq<Invite>, options: InviteOptions): (r: seq<InviteJson>)
    ensures forall j :: j in r ==> j.role == options.first.role || j.role == options.second.role
    ensures forall j :: j in r ==> exists i :: i in invites && (i.role == options.first.role || i.role == options.second.role)
                                             && j == ToJson(i)
    ensures forall i :: i in invites && (i.role == options.first.role || i.role == options.second.role)
                        ==> ToJson(i) in r
  {
    if invites == [] then []
    else (if invites[0].role == options.first.role || invites[0].role == options.second.role
          then [ToJson(invites[0])] else [])
         + ListInvites(invites[1..], options)
  }

  /** A handler's answer: status, message and the rendered invite if any. */
  datatype Answer = Answer(status: int, message: string, data: Option<InviteJson>)

  /** `getOneInvite`: the rendered invite with the id, or 404. */
  function GetOneInvite(invites: seq<Invite>, id: Id): (a: Answer)
    ensures a.status == 404 <==> forall i :: i in invites ==> i.id != id
    ensures a.status == 404 ==> a == Answer(404, "Could not find invite", None)
    ensures a.status != 404 ==> a.status == 200 && a.message == ""
                                && exists i :: i in invites && i.id == id && a.data == Some(ToJson(i))
  {
    match FindFirst(invites, (i: Invite) => i.id == id)
    case None => Answer(404, "Could not find invite", None)
    case Some(i) => Answer(200, "", Some(ToJson(i)))
  }

  /** The invites collection. */
  class InviteStore {
    var invites: seq<Invite>
    var nextId: Id

    /** Every stored id is below `nextId`, so ids are fresh. */
    ghost predicate Valid()
      reads this
    {
      forall i :: i in invites ==> i.id < nextId
    }

    constructor ()
      ensures invites == [] && Valid()
    {
      invites := [];
      nextId := 0;
    }

    /** `newInvite`: refuses with 400 when an active invite to the address
        exists; otherwise stores a new active invite of the chosen role,
        created at `now`. */
    method NewInvite(options: InviteOptions, typeFlag: bool, email: string, now: int) returns (a: Answer)
      requires Valid()
      modifies this
      ensures Valid()
      ensures HasActive(old(invites), email) ==>
        (a == Answer(400, "An invite has already been sent to that email", None)
         && invites == old(invites) && nextId == old(nextId))
      ensures !HasActive(old(invites), email) ==>
        (invites == old(invites) + [Invite(old(nextId), ChosenKind(options, typeFlag).role, email, now, ActiveStatus)]
         && nextId == old(nextId) + 1
         && a == Answer(200, ChosenKind(options, typeFlag).msg + " invitation has been sent to " + email,
                        Some(ToJson(Invite(old(nextId), ChosenKind(options, typeFlag).role, email, now, ActiveStatus)))))
    {
      var kind := ChosenKind(options, typeFlag);
      if HasActive(invites, email) {
        return Answer(400, "An invite has already been sent to that email", None);
      }
      var invite := Invite(nextId, kind.role, email, now, ActiveStatus);
      invites := invites + [invite];
      nextId := nextId + 1;
      a := Answer(200, kind.msg + " invitation has been sent to " + email, Some(ToJson(invite)));
    }

    /** `deleteInvite`: 404 when no invite has the id; otherwise the
        invite is blocked (status 2) in place and returned. */
    method DeleteInvite(id: Id) returns (a: Answer)
      requires Valid()
      modifies this
      ensures Valid()
      ensures nextId == old(nextId)
      ensures FirstIndex(old(invites), (i: Invite) => i.id == id).None? ==>
        (a == Answer(404, "Could not find invite", None) && invites == old(invites))
      ensures FirstIndex(old(invites), (i: Invite) => i.id == id).Some? ==>
        (var k := FirstIndex(old(invites), (i: Invite) => i.id == id).value;
         invites == old(invites)[k := old(invites)[k].(status := BlockedStatus)]
         && a == Answer(200, "Invite blocked", Some(ToJson(old(invites)[k].(status := BlockedStatus)))))
    {
      var found := FirstIndex(invites, (i: Invite) => i.id == id);
      if found.None? {
        return Answer(404, "Could not find invite", None);
      }
      var k := found.value;
      invites := invites[k := invites[k].(status := BlockedStatus)];
      a := Answer(200, "Invite blocked", Some(ToJson(invites[k])));
    }
  }

  /** Blocking an invite in place renders it as "Blocked", and an active
      invite to an address remains exactly when another invite to it is
      active. */
  lemma BlockedIsNotActive(invites: seq<Invite>, k: nat, email: string)
    requires k < |invites|
    ensures var after := invites[k := invites[k].(status := BlockedStatus)];
      && ToJson(after[k]).status == "Blocked"
      && (HasActive(after, email) <==>
            exists j :: 0 <= j < |invites| && j != k && invites[j].email == email && invites[j].status == ActiveStatus)
  {
    var after := invites[k := invites[k].(status := BlockedStatus)];
    HasActiveIff(after, email);
    if HasActive(after, email) {
      var i :| i in after && i.email == email && i.status == ActiveStatus;
      var j :| 0 <= j < |after| && after[j] == i;
      assert j != k && invites[j] == i;
    }
    if exists j :: 0 <= j < |invites| && j != k && invites[j].email == email && invites[j].status == ActiveStatus {
      var j :| 0 <= j < |invites| && j != k && invites[j].email == email && invites[j].status == ActiveStatus;
      assert after[j] in after;
    }
  }
}
