/** The application's error handler: the HTTP status an error gets from
    its name, and the message it answers with. */
module ErrorHandler {
  import opened Common

  /** `sub` occurs in `s` at position `j`. */
  predicate OccursAt(s: string, sub: string, j: int)
  {
    0 <= j <= |s| - |sub| && s[j..j + |sub|] == sub
  }

  /** `s.indexOf(sub)`: the first position where `sub` occurs in `s`, or -1. */
  function IndexOf(s: string, sub: string): (r: int)
    ensures r != -1 ==> OccursAt(s, sub, r) && forall j :: 0 <= j < r ==> !OccursAt(s, sub, j)
    ensures r == -1 <==> forall j :: !OccursAt(s, sub, j)
  {
    IndexFrom(s, sub, 0)
  }

  function IndexFrom(s: string, sub: string, i: nat): (r: int)
    ensures r != -1 ==> i <= r && OccursAt(s, sub, r) && forall j :: i <= j < r ==> !OccursAt(s, sub, j)
    ensures r == -1 ==> forall j :: i <= j ==> !OccursAt(s, sub, j)
    decreases |s| + 1 - i
  {
    if i + |sub| > |s| then -1
    else if s[i..i + |sub|] == sub then i
    else IndexFrom(s, sub, i + 1)
  }

  /** A word whose first letter `s` lacks does not occur in `s`. */
  lemma FirstLetterAbsent(s: string, sub: string)
    requires sub != [] && sub[0] !in s
    ensures IndexOf(s, sub) == -1
  {
    forall j | 0 <= j <= |s| - |sub|
      ensures !OccursAt(s, sub, j)
    {
      assert s[j..j + |sub|][0] == s[j];
    }
  }

  /** Lower-casing introduces a lower-case letter only where the letter or
      its capital was. */
  lemma LowerLacks(s: string, lower: char, upper: char)
    requires 'a' <= lower <= 'z' && upper as int == lower as int - 32
    requires lower !in s && upper !in s
    ensures lower !in Lower(s)
  {
  }

  /** Whether the lower-cased name mentions a word. */
  predicate Mentions(name: string, word: string)
  {
    IndexOf(Lower(name), word) != -1
  }

  /** The status the handler settles on: 500 unless the name mentions
      "unauthorized" (401), and 400 when it mentions "validation" or "cast",
      whatever else it mentions. */
  function StatusFor(name: string): (code: int)
    ensures code == 400 <==> Mentions(name, "validation") || Mentions(name, "cast")
    ensures code == 401 <==> Mentions(name, "unauthorized") && !Mentions(name, "validation") && !Mentions(name, "cast")
    ensures code == 500 <==> !Mentions(name, "unauthorized") && !Mentions(name, "validation") && !Mentions(name, "cast")
  {
    if Mentions(name, "validation") || Mentions(name, "cast") then 400
    else if Mentions(name, "unauthorized") then 401
    else 500
  }

  /** The handler: the status starts at 500 and is reassigned by each test
      that matches, in order; the message is the error's own. */
  method HandleError(name: string, message: string) returns (status: int, reply: string)
    ensures status == StatusFor(name)
    ensures reply == message
  {
    var lower := Lower(name);
    status := 500;
    if IndexOf(lower, "unauthorized") != -1 {
      status := 401;
    }
    if IndexOf(lower, "validation") != -1 || IndexOf(lower, "cast") != -1 {
      status := 400;
    }
    reply := message;
  }

  /** Mongoose's validation and cast errors answer 400. */
  lemma ValidationAndCastAre400()
    ensures StatusFor("ValidationError") == 400
    ensures StatusFor("CastError") == 400
  {
    assert Lower("ValidationError") == "validationerror";
    assert OccursAt("validationerror", "validation", 0);
    assert Lower("CastError") == "casterror";
    assert OccursAt("casterror", "cast", 0);
  }

  lemma UnauthorizedMentioned()
    ensures Mentions("UnauthorizedError", "unauthorized")
  {
    var l := Lower("UnauthorizedError");
    assert l[..12] == "unauthorized";
    assert OccursAt(l, "unauthorized", 0);
  }

  /** A name that lacks a word's first letter, in either case, does not
      mention the word. */
  lemma NotMentioned(name: string, word: string, upper: char)
    requires word != [] && 'a' <= word[0] <= 'z' && upper as int == word[0] as int - 32
    requires word[0] !in name && upper !in name
    ensures !Mentions(name, word)
  {
    LowerLacks(name, word[0], upper);
    FirstLetterAbsent(Lower(name), word);
  }

  /** An unauthorized error answers 401. */
  lemma UnauthorizedIs401()
    ensures StatusFor("UnauthorizedError") == 401
  {
    UnauthorizedMentioned();
    NotMentioned("UnauthorizedError", "validation", 'V');
    NotMentioned("UnauthorizedError", "cast", 'C');
  }

  /** Any other error answers 500. */
  lemma PlainErrorIs500()
    ensures StatusFor("Error") == 500
  {
    var l := Lower("Error");
    assert l == "error";
    FirstLetterAbsent(l, "validation");
    FirstLetterAbsent(l, "cast");
    FirstLetterAbsent(l, "unauthorized");
  }
}
