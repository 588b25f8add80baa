/** src/account.js: the ordered list of session ids that proved one email. */
module Account {
  import opened Common
  import Session

  /** `ids.indexOf(x)`: the first position of `x`, or -1 when it is absent. */
  function IndexOf(ids: seq<string>, x: string): (i: int)
    ensures -1 <= i < |ids|
    ensures i == -1 <==> x !in ids
    ensures i >= 0 ==> ids[i] == x && x !in ids[..i]
    decreases |ids|
  {
    if |ids| == 0 then -1
    else if ids[0] == x then 0
    else
      var j := IndexOf(ids[1..], x);
      assert j >= 0 ==> ids[1..][..j] == ids[1..j + 1];
      if j == -1 then -1 else j + 1
  }

  /** `ids.splice(start, 1)` as JavaScript runs it: a negative start counts
      back from the end, and a start at or past the end removes nothing. */
  function SpliceOne(ids: seq<string>, start: int): seq<string>
  {
    var k := if start >= 0 then start else if start + |ids| >= 0 then start + |ids| else 0;
    if k < |ids| then ids[..k] + ids[k + 1..] else ids
  }

  /** `rmSession` as written: `splice(indexOf(x), 1)` with no check of the -1. */
  function RmSessionAsWritten(ids: seq<string>, x: string): seq<string>
  {
    SpliceOne(ids, IndexOf(ids, x))
  }

  /** As written, removing an absent id from a non-empty list drops its last id. */
  lemma AsWrittenDropsLast(ids: seq<string>, x: string)
    requires x !in ids && |ids| > 0
    ensures RmSessionAsWritten(ids, x) == ids[..|ids| - 1]
    ensures RmSessionAsWritten(ids, x) != ids
  {
    assert |RmSessionAsWritten(ids, x)| == |ids| - 1;
  }

  /** The same list of test/account.js, where the id 'Z1J...' is removed from
      a list holding only 'aWh...': as written the list ends up empty. */
  lemma AsWrittenFailsAccountTest()
    ensures RmSessionAsWritten(["aWh2ak9hQU9KamE4N0VpSlRsMVVwdz09"], "Z1JWQTVJSEN6RjIyWjY5cDN0Mnl0dz09") == []
  {
    AsWrittenDropsLast(["aWh2ak9hQU9KamE4N0VpSlRsMVVwdz09"], "Z1JWQTVJSEN6RjIyWjY5cDN0Mnl0dz09");
  }

  /** `rmSession` as its tests require: the first occurrence of `x` is removed
      and the rest keep their order; an absent id leaves the list unchanged. */
  function RemoveFirst(ids: seq<string>, x: string): (r: seq<string>)
    ensures x !in ids ==> r == ids
    ensures x in ids ==> |r| == |ids| - 1
    ensures x in ids ==>
              exists i :: 0 <= i < |ids| && ids[i] == x && x !in ids[..i] && r == ids[..i] + ids[i + 1..]
  {
    var i := IndexOf(ids, x);
    if i >= 0 then SpliceOne(ids, i) else ids
  }

  /** When the id is present the code as written already behaves as intended. */
  lemma AsWrittenAgreesWhenPresent(ids: seq<string>, x: string)
    requires x in ids
    ensures RmSessionAsWritten(ids, x) == RemoveFirst(ids, x)
  {
  }

  /** Removing takes exactly one copy of the id out of the list. */
  lemma RemoveFirstMultiset(ids: seq<string>, x: string)
    requires x in ids
    ensures multiset(RemoveFirst(ids, x)) == multiset(ids) - multiset{x}
  {
    var i := IndexOf(ids, x);
    assert ids == ids[..i] + [x] + ids[i + 1..];
  }

  /** Adding a fresh id and removing it again restores the list. */
  lemma AddThenRemove(ids: seq<string>, x: string)
    requires x !in ids
    ensures RemoveFirst(ids + [x], x) == ids
  {
    assert (ids + [x])[..|ids|] == ids;
    assert IndexOf(ids + [x], x) == |ids|;
  }

  class Account {
    var email: string
    var sessionIds: seq<string>

    /** `new Account(email, sessionIds)`; a missing list (None) becomes empty. */
    constructor (email: string, sessionIds: Option<seq<string>>)
      ensures this.email == email
      ensures this.sessionIds == if sessionIds.None? then [] else sessionIds.value
    {
      this.email := email;
      this.sessionIds := if sessionIds.None? then [] else sessionIds.value;
    }

    /** `addSession(session)`: appends the session's id; earlier ids stay put. */
    method AddSession(session: Session.Session)
      modifies this`sessionIds
      ensures sessionIds == old(sessionIds) + [session.id]
    {
      sessionIds := sessionIds + [session.id];
    }

    /** `rmSession(sessionId)`, with the `rmid >= 0` guard the tests require. */
    method RmSession(sessionId: string)
      modifies this`sessionIds
      ensures sessionIds == RemoveFirst(old(sessionIds), sessionId)
    {
      var rmid := IndexOf(sessionIds, sessionId);
      if rmid >= 0 {
        sessionIds := SpliceOne(sessionIds, rmid);
      }
    }
  }
}
