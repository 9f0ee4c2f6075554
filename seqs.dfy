/** Small facts about sequences of sequences shared by the type-sequence algebra
    and by the segmentation of containers. */
module Seqs {

  /** The concatenation of all the sequences of `ss`, in order. */
  function Flatten<T>(ss: seq<seq<T>>): seq<T>
  {
    if ss == [] then [] else ss[0] + Flatten(ss[1..])
  }

  /** The sum of the lengths of the sequences of `ss`. */
  function SumLengths<T>(ss: seq<seq<T>>): nat
  {
    if ss == [] then 0 else |ss[0]| + SumLengths(ss[1..])
  }

  lemma {:induction false} FlattenAppend<T>(ss: seq<seq<T>>, ts: seq<seq<T>>)
    ensures Flatten(ss + ts) == Flatten(ss) + Flatten(ts)
  {
    if ss == [] {
      assert ss + ts == ts;
    } else {
      assert (ss + ts)[1..] == ss[1..] + ts;
      FlattenAppend(ss[1..], ts);
    }
  }

  lemma {:induction false} FlattenLength<T>(ss: seq<seq<T>>)
    ensures |Flatten(ss)| == SumLengths(ss)
  {
    if ss != [] {
      FlattenLength(ss[1..]);
    }
  }
}
