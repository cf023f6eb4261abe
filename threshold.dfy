/** The mask binarisation `threshold` of efficientnet_pytorch/test_segmentation.py
    (lines 26-28): `(image_mask > 0.6).to(torch.long)`, element-wise over the
    mask's values, read here as a flat sequence of reals. */
module MaskThreshold {

  const Cutoff: real := 0.6

  /** One pixel: 1 when strictly above the cutoff, else 0. */
  function Binarize(v: real): (b: int)
    ensures b == 0 || b == 1
    ensures b == 1 <==> v > Cutoff
  {
    if v > Cutoff then 1 else 0
  }

  /** `threshold(image_mask)`: the element-wise comparison, keeping the shape. */
  function Threshold(mask: seq<real>): (r: seq<int>)
    ensures |r| == |mask|
    ensures forall p :: 0 <= p < |mask| ==> (r[p] == 1 <==> mask[p] > Cutoff)
    ensures forall p :: 0 <= p < |mask| ==> r[p] == 0 || r[p] == 1
  {
    seq(|mask|, p requires 0 <= p < |mask| => Binarize(mask[p]))
  }

  /** The labels as the reals 0.0 and 1.0, to threshold a mask that is already binary. */
  function AsReals(labels: seq<int>): (r: seq<real>)
    ensures |r| == |labels|
    ensures forall p :: 0 <= p < |labels| ==> r[p] == labels[p] as real
  {
    seq(|labels|, p requires 0 <= p < |labels| => labels[p] as real)
  }

  /** Pointwise monotone: a brighter mask never loses a foreground pixel. */
  lemma ThresholdMonotone(lo: seq<real>, hi: seq<real>)
    requires |lo| == |hi|
    requires forall p :: 0 <= p < |lo| ==> lo[p] <= hi[p]
    ensures forall p :: 0 <= p < |lo| ==> Threshold(lo)[p] <= Threshold(hi)[p]
  {
  }

  /** The cutoff itself is background; anything above it, however close, is foreground. */
  lemma ThresholdBoundary()
    ensures Threshold([0.6]) == [0]
    ensures Threshold([0.6000001]) == [1]
  {
  }

  /** Thresholding a mask that is already binary changes nothing. */
  lemma ThresholdIdempotent(mask: seq<real>)
    ensures Threshold(AsReals(Threshold(mask))) == Threshold(mask)
  {
  }
}
