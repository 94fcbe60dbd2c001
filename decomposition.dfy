/** The decomposition codec of the calibration table: forward/reverse samples become
    common mode (their mean) and differential mode (half their difference), and back. */
module Decomposition {

  /** The raw table: one forward-rotation and one reverse-rotation current per angle. */
  datatype Sampled = Sampled(forward: seq<real>, reverse: seq<real>)

  /** The decomposed table: common-mode and differential-mode current per angle. */
  datatype Decomposed = Decomposed(common: seq<real>, diff: seq<real>)

  ghost predicate WellFormedSampled(t: Sampled) {
    |t.forward| == |t.reverse|
  }

  ghost predicate WellFormedDecomposed(d: Decomposed) {
    |d.common| == |d.diff|
  }

  /** getDecomposed: `(fwd + rev) / 2` and `(fwd - rev) / 2`, element by element. */
  function Decompose(t: Sampled): Decomposed
    requires WellFormedSampled(t)
  {
    Decomposed(
      seq(|t.forward|, i requires 0 <= i < |t.forward| => (t.forward[i] + t.reverse[i]) / 2.0),
      seq(|t.forward|, i requires 0 <= i < |t.forward| => (t.forward[i] - t.reverse[i]) / 2.0))
  }

  /** fromDecomposed: `common + diff` is the forward and `common - diff` the reverse
      current, element by element. */
  function Compose(d: Decomposed): Sampled
    requires WellFormedDecomposed(d)
  {
    Sampled(
      seq(|d.common|, i requires 0 <= i < |d.common| => d.common[i] + d.diff[i]),
      seq(|d.common|, i requires 0 <= i < |d.common| => d.common[i] - d.diff[i]))
  }

  /** Decomposing keeps the table's shape and gives the mean and the half difference. */
  lemma DecomposeAt(t: Sampled, i: int)
    requires WellFormedSampled(t) && 0 <= i < |t.forward|
    ensures WellFormedDecomposed(Decompose(t)) && |Decompose(t).common| == |t.forward|
    ensures Decompose(t).common[i] == (t.forward[i] + t.reverse[i]) / 2.0
    ensures Decompose(t).diff[i] == (t.forward[i] - t.reverse[i]) / 2.0
  {
  }

  /** Composing after decomposing gives back the raw table exactly. */
  lemma ComposeDecompose(t: Sampled)
    requires WellFormedSampled(t)
    ensures WellFormedDecomposed(Decompose(t))
    ensures Compose(Decompose(t)) == t
  {
    var d := Decompose(t);
    var back := Compose(d);
    forall i | 0 <= i < |t.forward|
      ensures back.forward[i] == t.forward[i] && back.reverse[i] == t.reverse[i]
    {
      calc {
        back.forward[i];
        (t.forward[i] + t.reverse[i]) / 2.0 + (t.forward[i] - t.reverse[i]) / 2.0;
        t.forward[i];
      }
    }
  }

  /** Decomposing after composing gives back the decomposed table exactly. */
  lemma DecomposeCompose(d: Decomposed)
    requires WellFormedDecomposed(d)
    ensures WellFormedSampled(Compose(d))
    ensures Decompose(Compose(d)) == d
  {
    var t := Compose(d);
    var back := Decompose(t);
    forall i | 0 <= i < |d.common|
      ensures back.common[i] == d.common[i] && back.diff[i] == d.diff[i]
    {
      calc {
        back.common[i];
        ((d.common[i] + d.diff[i]) + (d.common[i] - d.diff[i])) / 2.0;
        d.common[i];
      }
    }
  }

  /** Both codecs commute with taking a prefix, so writing a prefix of the table from a
      prefix of its decomposition is the same as composing and cutting. */
  lemma ComposePrefix(d: Decomposed, k: nat)
    requires WellFormedDecomposed(d) && k <= |d.common|
    ensures Compose(Decomposed(d.common[..k], d.diff[..k])).forward == Compose(d).forward[..k]
    ensures Compose(Decomposed(d.common[..k], d.diff[..k])).reverse == Compose(d).reverse[..k]
  {
  }
}
