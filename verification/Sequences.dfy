/** Small facts about sequences. */
module Sequences {

  lemma TakeOneMore<T>(s: seq<T>, i: nat)
    requires i < |s|
    ensures s[..i + 1] == s[..i] + [s[i]]
  {
  }

  /** The middle of three joined pieces. */
  lemma MiddlePiece<T>(pre: seq<T>, mid: seq<T>, post: seq<T>)
    ensures (pre + mid + post)[|pre|..|pre| + |mid|] == mid
    ensures (pre + mid + post)[|pre| + |mid|..] == post
    ensures (pre + mid + post)[..|pre|] == pre
    ensures pre + mid + post == pre + (mid + post)
  {
  }

  /** The pieces joined end to end. */
  function Join<T>(pieces: seq<seq<T>>): seq<T> {
    if pieces == [] then [] else pieces[0] + Join(pieces[1..])
  }

  lemma {:induction false} JoinAppend<T>(a: seq<seq<T>>, b: seq<seq<T>>)
    ensures Join(a + b) == Join(a) + Join(b)
    decreases |a|
  {
    if a == [] {
      assert a + b == b;
    } else {
      assert (a + b)[1..] == a[1..] + b;
      JoinAppend(a[1..], b);
    }
  }

  lemma JoinPush<T>(pieces: seq<seq<T>>, last: seq<T>)
    ensures Join(pieces + [last]) == Join(pieces) + last
  {
    JoinAppend(pieces, [last]);
    assert Join([last]) == last;
  }
}
