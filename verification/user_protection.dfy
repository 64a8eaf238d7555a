/** `userUpdateProtection`: before a user updates their own record, the
    request body loses the keys that would let them change their id, role,
    root flag or status, but only when those values are truthy. */
module UserProtection {

  /** A JSON value of a request body. */
  datatype Json = JNull | JBool(b: bool) | JNum(n: int) | JStr(s: string) | JArray(items: seq<Json>) | JObject

  /** JavaScript truthiness: false, 0, "" and null are falsy. */
  predicate Truthy(v: Json)
  {
    match v
    case JNull => false
    case JBool(b) => b
    case JNum(n) => n != 0
    case JStr(s) => s != ""
    case JArray(_) => true
    case JObject => true
  }

  const ProtectedKeys: set<string> := {"id", "user_role", "root", "status"}

  /** A key is dropped when it is protected and its value is truthy. */
  predicate Dropped(body: map<string, Json>, k: string)
  {
    k in body && k in ProtectedKeys && Truthy(body[k])
  }

  /** The body after the protection. */
  function Stripped(body: map<string, Json>): (r: map<string, Json>)
    ensures forall k :: k in r <==> k in body && !Dropped(body, k)
    ensures forall k :: k in r ==> r[k] == body[k]
  {
    map k | k in body && !Dropped(body, k) :: body[k]
  }

  /** Stripping twice is stripping once. */
  lemma StrippedIdempotent(body: map<string, Json>)
    ensures Stripped(Stripped(body)) == Stripped(body)
  {
  }

  /** A falsy status (or id, role, root) survives, with its value. */
  lemma FalsyProtectedSurvives(body: map<string, Json>, k: string)
    requires k in body && !Truthy(body[k])
    ensures k in Stripped(body) && Stripped(body)[k] == body[k]
  {
  }

  /** One deletion step: the key goes when present with a truthy value. */
  function DropIfTruthy(body: map<string, Json>, k: string): (r: map<string, Json>)
    ensures forall x :: x in r <==> x in body && !(x == k && Truthy(body[x]))
    ensures forall x :: x in r ==> r[x] == body[x]
  {
    if k in body && Truthy(body[k]) then body - {k} else body
  }

  /** The four steps, in turn, strip the body. */
  lemma StepsStrip(body: map<string, Json>)
    ensures DropIfTruthy(DropIfTruthy(DropIfTruthy(DropIfTruthy(body, "id"), "user_role"), "root"), "status")
            == Stripped(body)
  {
    var a := DropIfTruthy(body, "id");
    var b := DropIfTruthy(a, "user_role");
    var c := DropIfTruthy(b, "root");
    var d := DropIfTruthy(c, "status");
    forall k | k in body
      ensures k in d <==> !Dropped(body, k)
    {
      assert k in ProtectedKeys <==> k == "id" || k == "user_role" || k == "root" || k == "status";
    }
    assert d.Keys == Stripped(body).Keys;
  }

  /** The request whose body is protected in place. */
  class Request {
    var body: map<string, Json>

    constructor (body: map<string, Json>)
      ensures this.body == body
    {
      this.body := body;
    }

    /** `userUpdateProtection`: each of the four keys is deleted in turn
        when present with a truthy value. */
    method UserUpdateProtection()
      modifies this
      ensures body == Stripped(old(body))
    {
      ghost var original := body;
      if "id" in body && Truthy(body["id"]) {
        body := body - {"id"};
      }
      assert body == DropIfTruthy(original, "id");
      if "user_role" in body && Truthy(body["user_role"]) {
        body := body - {"user_role"};
      }
      assert body == DropIfTruthy(DropIfTruthy(original, "id"), "user_role");
      if "root" in body && Truthy(body["root"]) {
        body := body - {"root"};
      }
      assert body == DropIfTruthy(DropIfTruthy(DropIfTruthy(original, "id"), "user_role"), "root");
      if "status" in body && Truthy(body["status"]) {
        body := body - {"status"};
      }
      StepsStrip(original);
    }
  }
}
