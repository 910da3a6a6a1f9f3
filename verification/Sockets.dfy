/** What the operating system may answer to one `send` or `recv`. */
module Sockets {

  /** It moves some bytes, is interrupted, would block, reports the end of the connection, or fails. */
  datatype Answer = Took(n: nat) | Interrupted | WouldBlock | Closed | Failed

  /** Of `room` bytes at least one is moved, and at most all. */
  function Taken(n: nat, room: nat): nat {
    if n == 0 then 1 else if n > room then room else n
  }

  /** The bytes that an unbroken series of answers accepts: takes, and interruptions between them. */
  function Accepts(answers: seq<Answer>): nat {
    if answers == [] then 0
    else
      match answers[0]
      case Took(n) => (if n == 0 then 1 else n) + Accepts(answers[1..])
      case Interrupted => Accepts(answers[1..])
      case _ => 0
  }

  /** The first answer that is neither is the end of the connection or a failure. */
  predicate Ends(answers: seq<Answer>) {
    exists k :: 0 <= k < |answers| && EndsAt(answers, k)
  }

  predicate EndsAt(answers: seq<Answer>, k: nat)
    requires k < |answers|
  {
    (answers[k].Closed? || answers[k].Failed?) && Unbroken(answers[..k])
  }

  predicate Unbroken(answers: seq<Answer>) {
    forall k :: 0 <= k < |answers| ==> Passes(answers[k])
  }

  predicate Passes(a: Answer) {
    a.Took? || a.Interrupted?
  }

  lemma EndsUnfold(answers: seq<Answer>)
    requires answers != []
    ensures Ends(answers) <==>
      answers[0].Closed? || answers[0].Failed? || (Passes(answers[0]) && Ends(answers[1..]))
  {
    var rest := answers[1..];
    if Ends(answers) {
      var k :| 0 <= k < |answers| && EndsAt(answers, k);
      if k > 0 {
        assert Passes(answers[..k][0]);
        var before := rest[..k - 1];
        forall j | 0 <= j < |before| ensures Passes(before[j]) {
          assert Passes(answers[..k][j + 1]);
        }
        assert EndsAt(rest, k - 1);
      }
    }
    if Passes(answers[0]) && Ends(rest) {
      var k :| 0 <= k < |rest| && EndsAt(rest, k);
      var before := answers[..k + 1];
      forall j | 0 <= j < |before| ensures Passes(before[j]) {
        if j > 0 { assert Passes(rest[..k][j - 1]); }
      }
      assert EndsAt(answers, k + 1);
    }
    if answers[0].Closed? || answers[0].Failed? {
      assert EndsAt(answers, 0);
    }
  }
}
