/** Blocking an application administrator: only the root administrator
    may, never the root itself, and only an administrator account. */
module AppAdmins {
  import opened Common

  /** The parts of a user account the guard reads and writes. */
  class User {
    var root: bool
    var role: string
    var status: bool

    constructor (root: bool, role: string, status: bool)
      ensures this.root == root && this.role == role && this.status == status
    {
      this.root := root;
      this.role := role;
      this.status := status;
    }
  }

  /** The saved account as rendered in an answer's `data`: the fields the
      model tracks. */
  datatype UserJson = UserJson(root: bool, role: string, status: bool)

  /** `toggleUserState`: sets the account's status and returns the saved
      account rendered. */
  method ToggleUserState(user: User, val: bool) returns (j: UserJson)
    modifies user
    ensures user.status == val
    ensures user.root == old(user.root) && user.role == old(user.role)
    ensures j == UserJson(user.root, user.role, val)
  {
    user.status := val;
    j := UserJson(user.root, user.role, user.status);
  }

  /** The guard chain's answer for a caller and a target account. */
  function DeleteAnswer(callerRoot: bool, targetRoot: bool, targetRole: string): (r: (int, string))
    ensures !callerRoot ==> r == (403, "You can't access this resource")
    ensures callerRoot && targetRoot ==> r == (403, "You can't block the root administrator")
    ensures callerRoot && !targetRoot && targetRole != "administrator" ==> r == (404, "Could not find administrator")
    ensures r.0 == 200 <==> callerRoot && !targetRoot && targetRole == "administrator"
  {
    if !callerRoot then (403, "You can't access this resource")
    else if targetRoot then (403, "You can't block the root administrator")
    else if targetRole != "administrator" then (404, "Could not find administrator")
    else (200, "Administrator blocked")
  }

  /** `deleteAppAdmin`: the guards in order; only when all pass is the
      target's status set to false, and the answer's data is then the saved
      target rendered. A refusal's data is empty (`{}`), here `None`. */
  method DeleteAppAdmin(caller: User, target: User) returns (status: int, message: string, data: Option<UserJson>)
    modifies target
    ensures (status, message) == DeleteAnswer(old(caller.root), old(target.root), old(target.role))
    ensures status == 200 ==> target.status == false && data == Some(UserJson(target.root, target.role, false))
    ensures status != 200 ==> target.status == old(target.status) && data.None?
    ensures target.root == old(target.root) && target.role == old(target.role)
  {
    if !caller.root {
      return 403, "You can't access this resource", None;
    }
    if target.root {
      return 403, "You can't block the root administrator", None;
    }
    if target.role != "administrator" {
      return 404, "Could not find administrator", None;
    }
    var saved := ToggleUserState(target, false);
    return 200, "Administrator blocked", Some(saved);
  }
}
