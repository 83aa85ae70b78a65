/** The validation pattern every operation of the application follows: run a
    fixed sequence of field checks, append the message of each one that fails
    to an error list, and touch the tables only when that list is empty. */
module Checks {

  import opened Php

  /** One field check: whether it failed, and the message it appends if so. */
  datatype Check = Check(failed: bool, message: string)

  /** What an operation returns: success with its message (and the new row's
      id where the application returns `lastInsertId()`), or the ordered errors. */
  datatype Outcome = Succeeded(message: string, newId: Option<int>) | Failed(errors: seq<string>)

  function Messages(cs: seq<Check>): seq<string>
  {
    seq(|cs|, i requires 0 <= i < |cs| => cs[i].message)
  }

  predicate Distinct<T(==)>(s: seq<T>)
  {
    forall i, j :: 0 <= i < j < |s| ==> s[i] != s[j]
  }

  /** `s` occurs in `t` in the same order, possibly with gaps. */
  predicate IsSubsequence<T(==)>(s: seq<T>, t: seq<T>)
    decreases |t|
  {
    if s == [] then true
    else if t == [] then false
    else if s[0] == t[0] then IsSubsequence(s[1..], t[1..])
    else IsSubsequence(s, t[1..])
  }

  lemma {:induction false} SubsequenceMembers<T>(s: seq<T>, t: seq<T>)
    requires IsSubsequence(s, t)
    ensures forall x :: x in s ==> x in t
    decreases |t|
  {
    if s != [] && t != [] {
      if s[0] == t[0] {
        SubsequenceMembers(s[1..], t[1..]);
        forall x | x in s ensures x in t {
          if x != s[0] { assert x in s[1..]; }
        }
      } else {
        SubsequenceMembers(s, t[1..]);
      }
    }
  }

  lemma {:induction false} SubsequenceOfLonger<T>(s: seq<T>, x: T, t: seq<T>)
    requires IsSubsequence(s, t)
    ensures IsSubsequence(s, [x] + t)
    decreases |t|, 1
  {
    assert ([x] + t)[1..] == t;
    if s != [] && s[0] == x {
      SubsequenceDropHead(s, t);
    }
  }

  lemma {:induction false} SubsequenceDropHead<T>(s: seq<T>, t: seq<T>)
    requires s != [] && IsSubsequence(s, t)
    ensures IsSubsequence(s[1..], t)
    decreases |t|, 0
  {
    assert [t[0]] + t[1..] == t;
    if s[0] == t[0] {
      SubsequenceOfLonger(s[1..], t[0], t[1..]);
    } else {
      SubsequenceDropHead(s, t[1..]);
      SubsequenceOfLonger(s[1..], t[0], t[1..]);
    }
  }

  lemma {:induction false} SubsequenceAppend<T>(s: seq<T>, t: seq<T>, u: seq<T>)
    requires IsSubsequence(s, t)
    ensures IsSubsequence(s, t + u)
    decreases |t|
  {
    if s != [] {
      assert (t + u)[1..] == t[1..] + u;
      if s[0] == t[0] {
        SubsequenceAppend(s[1..], t[1..], u);
      } else {
        SubsequenceAppend(s, t[1..], u);
      }
    }
  }

  lemma {:induction false} SubsequencePrepend<T>(s: seq<T>, t: seq<T>, u: seq<T>)
    requires IsSubsequence(s, u)
    ensures IsSubsequence(s, t + u)
    decreases |t|
  {
    if t == [] {
      assert t + u == u;
    } else {
      SubsequencePrepend(s, t[1..], u);
      SubsequenceOfLonger(s, t[0], t[1..] + u);
      assert [t[0]] + (t[1..] + u) == t + u;
    }
  }

  /** The errors the application collects from the checks `cs`: the message of
      each failed check, in check order. */
  function Failures(cs: seq<Check>): seq<string>
  {
    if cs == [] then []
    else (if cs[0].failed then [cs[0].message] else []) + Failures(cs[1..])
  }

  /** The collected errors keep the checks' order, report exactly the
      messages of failed checks, and are empty exactly when no check fails. */
  lemma {:induction false} FailuresSpec(cs: seq<Check>)
    ensures IsSubsequence(Failures(cs), Messages(cs))
    ensures forall m :: m in Failures(cs) <==> exists i :: 0 <= i < |cs| && cs[i].failed && cs[i].message == m
    ensures Failures(cs) == [] <==> forall i :: 0 <= i < |cs| ==> !cs[i].failed
  {
    if cs != [] {
      var rest := Failures(cs[1..]);
      FailuresSpec(cs[1..]);
      assert Messages(cs) == [cs[0].message] + Messages(cs[1..]);
      assert forall i :: 1 <= i < |cs| ==> cs[i] == cs[1..][i - 1];
      if cs[0].failed {
        assert Failures(cs) == [cs[0].message] + rest;
      } else {
        assert Failures(cs) == rest;
        SubsequenceOfLonger(rest, cs[0].message, Messages(cs[1..]));
      }
    }
  }

  /** Running one more check appends its message when it fails: the errors
      after a further check are the errors so far, then that check's. */
  lemma {:induction false} FailuresSnoc(cs: seq<Check>, c: Check)
    ensures Failures(cs + [c]) == Failures(cs) + (if c.failed then [c.message] else [])
  {
    if cs == [] {
      assert cs + [c] == [c];
    } else {
      FailuresSnoc(cs[1..], c);
      assert (cs + [c])[1..] == cs[1..] + [c];
    }
  }

  /** One step of the application's validation: append the check's message to the
      errors of the checks run so far when the check fails. */
  method Report(errors: seq<string>, ghost done: seq<Check>, c: Check) returns (r: seq<string>, ghost done': seq<Check>)
    requires errors == Failures(done)
    ensures done' == done + [c] && r == Failures(done')
    ensures c.failed ==> r == errors + [c.message]
    ensures !c.failed ==> r == errors
  {
    FailuresSnoc(done, c);
    done' := done + [c];
    if c.failed {
      r := errors + [c.message];
    } else {
      r := errors;
    }
  }

  /** With distinct messages, a check's message is reported exactly when that check fails. */
  lemma FailedMessage(cs: seq<Check>, k: int)
    requires Distinct(Messages(cs)) && 0 <= k < |cs|
    ensures cs[k].message in Failures(cs) <==> cs[k].failed
  {
    forall i | 0 <= i < |cs| && i != k ensures cs[i].message != cs[k].message {
      assert Messages(cs)[i] == cs[i].message && Messages(cs)[k] == cs[k].message;
    }
    FailuresSpec(cs);
  }
}
