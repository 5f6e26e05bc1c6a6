/** Small shared vocabulary: optional values, results carrying the exception a
    .NET call would throw, duplicate-freedom of sequences, and a snapshot of a
    set as a sequence (the `ToList()` of a key collection). */
module Common {

  datatype Option<+T> = None | Some(value: T) {
    function GetOr(default: T): T {
      match this
      case Some(v) => v
      case None => default
    }
  }

  /** The exceptions the modelled code throws on purpose. */
  datatype Error =
    | ArgumentNull          // System.ArgumentNullException
    | DuplicateArgument     // System.ArgumentException raised for a repeated key or id
    | NullValue             // System.ArgumentException raised for a null entry value
    | KeyNotFound           // System.Collections.Generic.KeyNotFoundException

  datatype Result<+T> = Success(value: T) | Failure(error: Error)

  datatype Outcome = Pass | Fail(error: Error)

  /** The elements of a sequence, as a set. */
  function Elements<T>(s: seq<T>): set<T> {
    set x | x in s
  }

  /** No element occurs twice. */
  predicate NoDup<T(==)>(s: seq<T>) {
    forall i, j :: 0 <= i < j < |s| ==> s[i] != s[j]
  }

  lemma NoDupConcat<T>(a: seq<T>, b: seq<T>)
    ensures NoDup(a + b) <==> NoDup(a) && NoDup(b) && forall x :: x in a ==> x !in b
  {
    if NoDup(a + b) {
      assert forall i :: 0 <= i < |a| ==> a[i] == (a + b)[i];
      assert forall j :: 0 <= j < |b| ==> b[j] == (a + b)[|a| + j];
      forall x | x in a ensures x !in b {
        var i :| 0 <= i < |a| && a[i] == x;
      }
    } else if NoDup(a) && NoDup(b) && forall x :: x in a ==> x !in b {
      forall i, j | 0 <= i < j < |a + b| ensures (a + b)[i] != (a + b)[j] {
        if j < |a| {
          assert (a + b)[i] == a[i] && (a + b)[j] == a[j];
        } else if i >= |a| {
          assert (a + b)[i] == b[i - |a|] && (a + b)[j] == b[j - |a|];
        } else {
          assert (a + b)[i] in a && (a + b)[j] in b;
        }
      }
    }
  }

  /** Counting distinct elements detects duplicates: the length of a sequence
      equals the size of its element set exactly when no element repeats. */
  lemma {:induction false} DistinctCount<T>(s: seq<T>)
    ensures |Elements(s)| == |s| <==> NoDup(s)
    ensures |Elements(s)| <= |s|
  {
    if s == [] {
    } else {
      var rest := s[1..];
      DistinctCount(rest);
      var tail := Elements(rest);
      assert Elements(s) == {s[0]} + tail;
      if s[0] in rest {
        assert Elements(s) == tail;
        var j :| 0 <= j < |rest| && rest[j] == s[0];
        assert s[0] == s[j + 1];
      } else {
        assert |Elements(s)| == |tail| + 1;
        if NoDup(rest) {
          forall i, j | 0 <= i < j < |s| ensures s[i] != s[j] {
            if i > 0 { assert s[i] == rest[i - 1] && s[j] == rest[j - 1]; }
            else { assert s[j] == rest[j - 1]; }
          }
        } else {
          var i, j :| 0 <= i < j < |rest| && rest[i] == rest[j];
          assert s[i + 1] == s[j + 1];
        }
      }
    }
  }

  /** A duplicate-free sequence holding exactly the elements of `s`, in an
      unspecified order, as `Keys.ToList()` gives it. */
  method SetToSequence<T>(s: set<T>) returns (xs: seq<T>)
    ensures Elements(xs) == s
    ensures NoDup(xs)
  {
    xs := [];
    var rest := s;
    while rest != {}
      invariant rest !! Elements(xs)
      invariant rest + Elements(xs) == s
      invariant NoDup(xs)
      decreases |rest|
    {
      var x :| x in rest;
      xs := xs + [x];
      rest := rest - {x};
    }
  }
}
