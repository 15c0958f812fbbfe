/** What several modules share. */
module Basics {

  const NUL: char := '\0'

  datatype Option<T> = None | Some(value: T)

  /** The status codes that the modelled paths return. */
  datatype Status =
    | Ok
    | InvalidArg
    | InvalidTopic
    | DuplicateSubscriber
    | InvalidSubscriber
    | InvalidOpcode
    | InvalidVarHeaders
    | MaxVarHeaders
    | NotCompleted
    | Closed
    | IoError

  ghost predicate NoDup<T>(s: seq<T>) {
    forall i, j :: 0 <= i < j < |s| ==> s[i] != s[j]
  }

  function Drop<T>(s: seq<T>, i: nat): (r: seq<T>)
    requires i < |s|
    ensures |r| == |s| - 1
  {
    s[..i] + s[i + 1..]
  }

  /** The sequence without the first x in it. */
  function Without<T(==)>(s: seq<T>, x: T): seq<T> {
    if s == [] then [] else if s[0] == x then s[1..] else [s[0]] + Without(s[1..], x)
  }

  /** The state after step i of a run. */
  function Then<S>(run: seq<S>, i: nat): S
    requires i + 1 < |run|
  {
    run[i + 1]
  }

  lemma Assoc<T>(a: seq<T>, b: seq<T>, c: seq<T>)
    ensures a + b + c == a + (b + c)
  {
  }

  /** Two texts joined by a slash are the same exactly when the parts are, or a slash inside a part makes up for it. */
  lemma JoinClash(a: string, b: string, c: string, d: string)
    requires |a| <= |c|
    ensures a + "/" + b == c + "/" + d <==> (a == c && b == d) || exists x :: c == a + "/" + x && b == x + "/" + d
  {
    var r, s := a + "/" + b, c + "/" + d;
    assert r[..|a|] == a && r[|a| + 1..] == b && s[..|c|] == c && s[|c| + 1..] == d;
    if r == s && |a| < |c| {
      var x := c[|a| + 1..];
      assert r[|a|] == '/' && c == s[..|c|];
      assert c == a + "/" + x;
      assert b == x + "/" + d;
    }
    forall x | c == a + "/" + x && b == x + "/" + d ensures r == s {
      assert r == a + "/" + (x + "/" + d) == (a + "/" + x) + "/" + d;
    }
  }
}
