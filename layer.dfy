/**
 * The state and read-only accessors of one layer of an EOgmaNeo hierarchy.
 *
 * A layer sees one or more visible (input) layers, each described by a
 * `VisibleLayerDesc`, and zero or more feedback layers coming from above.
 * Its sparse codes are kept in chunked format (one winning bit per chunk).
 * Weights and the float accumulators are stored and handed out, never computed
 * on here, so their element type is the opaque type parameter `F`.
 */
module EogmaNeoLayer {
  import opened Addressing

  /** Parameters of one visible (input) layer. */
  datatype VisibleLayerDesc = VisibleLayerDesc(
    width: int,
    height: int,
    chunkSize: int, // side ("diameter") of a chunk; a chunk holds chunkSize^2 bits
    radius: int,    // radius of the sparse weight matrices
    predict: bool   // whether this visible layer is predicted
  )
  {
    /** A usable description: a non-empty grid cut into chunks of positive side. */
    predicate Valid()
    {
      width > 0 && height > 0 && chunkSize > 0
    }

    /** `code` is a chunked code of this visible layer. */
    predicate Describes(code: seq<int>)
    {
      IsChunkedCode(code, width, height, chunkSize)
    }
  }

  /** The descriptor a default-initialised `VisibleLayerDesc` holds. */
  function DefaultVisibleLayerDesc(): (d: VisibleLayerDesc)
    ensures d.width == 36 && d.height == 36 && d.chunkSize == 6 && d.radius == 9 && d.predict
    ensures d.Valid()
    // the default 36 x 36 grid is cut into 6 x 6 chunks of 36 bits each, with no remainder
    ensures ChunkCount(d.width, d.height, d.chunkSize) == 36 && ChunkBits(d.chunkSize) == 36
    ensures ChunkCount(d.width, d.height, d.chunkSize) * ChunkBits(d.chunkSize) == d.width * d.height
  {
    VisibleLayerDesc(36, 36, 6, 9, true)
  }

  /**
   * A layer in the hierarchy. The fields are those of the source class; the
   * classes that fill them in (`create`, the work items, the hierarchy) are not
   * modelled, so after construction the fields are written directly by whoever
   * holds the layer.
   */
  class Layer<F(0)> {
    var hiddenWidth: int
    var hiddenHeight: int
    var chunkSize: int

    var hiddenStates: seq<int>

    var feedForwardWeights: seq<seq<F>>
    var predictionWeights: seq<seq<seq<F>>>

    var reconActivations: seq<seq<F>>
    var reconCounts: seq<seq<F>>
    var reconActivationsPrev: seq<seq<F>>
    var reconCountsPrev: seq<seq<F>>

    var visibleLayerDescs: seq<VisibleLayerDesc>

    var predictions: seq<seq<int>>

    var predictionActivations: seq<seq<F>>
    var predictionCounts: seq<seq<F>>
    var predictionActivationsPrev: seq<seq<F>>

    var inputs: seq<seq<int>>
    var inputsPrev: seq<seq<int>>

    var feedBack: seq<seq<int>>
    var feedBackPrev: seq<seq<int>>

    var alpha: F
    var beta: F
    var gamma: F

    /**
     * The implicit default constructor of the source class: every vector is
     * empty. The scalar fields are left indeterminate, as the source leaves
     * them; the layer is not `Valid()` until its fields are filled in.
     */
    constructor ()
      ensures hiddenStates == [] && feedForwardWeights == [] && predictionWeights == []
      ensures reconActivations == [] && reconCounts == [] && reconActivationsPrev == [] && reconCountsPrev == []
      ensures visibleLayerDescs == [] && predictions == []
      ensures predictionActivations == [] && predictionCounts == [] && predictionActivationsPrev == []
      ensures inputs == [] && inputsPrev == [] && feedBack == [] && feedBackPrev == []
    {
      hiddenStates, feedForwardWeights, predictionWeights := [], [], [];
      reconActivations, reconCounts, reconActivationsPrev, reconCountsPrev := [], [], [], [];
      visibleLayerDescs, predictions := [], [];
      predictionActivations, predictionCounts, predictionActivationsPrev := [], [], [];
      inputs, inputsPrev, feedBack, feedBackPrev := [], [], [], [];
    }

    /**
     * The layer invariant: the shapes the accessors index into, and the
     * chunked-code invariant of every stored code. Feedback codes have the
     * hidden layer's shape.
     */
    ghost predicate Valid()
      reads this
    {
      && hiddenWidth > 0 && hiddenHeight > 0 && chunkSize > 0
      && IsChunkedCode(hiddenStates, hiddenWidth, hiddenHeight, chunkSize)
      && (forall v :: 0 <= v < |visibleLayerDescs| ==> visibleLayerDescs[v].Valid())
      // one weight vector per (visible layer, hidden unit)
      && |feedForwardWeights| == |visibleLayerDescs| * hiddenWidth * hiddenHeight
      // one such flat vector per feedback layer
      && |predictionWeights| == |feedBack|
      && (forall f :: 0 <= f < |predictionWeights| ==> |predictionWeights[f]| == |feedForwardWeights|)
      // per visible layer: current and previous inputs, and predictions
      && |inputs| == |inputsPrev| == |predictions| == |visibleLayerDescs|
      && (forall v :: 0 <= v < |visibleLayerDescs| ==>
            && visibleLayerDescs[v].Describes(inputs[v])
            && visibleLayerDescs[v].Describes(inputsPrev[v])
            && visibleLayerDescs[v].Describes(predictions[v]))
      // per feedback layer: current and previous feedback
      && |feedBackPrev| == |feedBack|
      && (forall f :: 0 <= f < |feedBack| ==>
            && IsChunkedCode(feedBack[f], hiddenWidth, hiddenHeight, chunkSize)
            && IsChunkedCode(feedBackPrev[f], hiddenWidth, hiddenHeight, chunkSize))
    }

    function GetHiddenWidth(): (w: int)
      reads this
      requires Valid()
      ensures w == hiddenWidth && w > 0
    {
      hiddenWidth
    }

    function GetHiddenHeight(): (h: int)
      reads this
      requires Valid()
      ensures h == hiddenHeight && h > 0
    {
      hiddenHeight
    }

    function GetChunkSize(): (cs: int)
      reads this
      requires Valid()
      ensures cs == chunkSize && cs > 0
      // the hidden grid has one hidden state per chunk
      ensures |hiddenStates| == ChunkCount(hiddenWidth, hiddenHeight, cs)
    {
      chunkSize
    }

    /** The number of visible layers is the number of descriptors, and of input and prediction buffers. */
    function GetNumVisibleLayers(): (n: int)
      reads this
      requires Valid()
      ensures n == |visibleLayerDescs|
      ensures n == |inputs| == |inputsPrev| == |predictions|
      ensures n * hiddenWidth * hiddenHeight == |feedForwardWeights|
    {
      |visibleLayerDescs|
    }

    /** The `v`-th descriptor; the layer's inputs and predictions for `v` are codes of its grid. */
    function GetVisibleLayerDesc(v: int): (d: VisibleLayerDesc)
      reads this
      requires Valid()
      requires 0 <= v < |visibleLayerDescs|
      ensures d == visibleLayerDescs[v]
      ensures d.Valid() && d.Describes(inputs[v]) && d.Describes(predictions[v])
    {
      visibleLayerDescs[v]
    }

    /** The number of feedback layers is the number of feedback buffers, and of prediction-weight sets. */
    function GetNumFeedBackLayers(): (n: int)
      reads this
      requires Valid()
      ensures n == |feedBack|
      ensures n == |feedBackPrev| == |predictionWeights|
    {
      |feedBack|
    }

    /** A copy of the hidden states: one winner per hidden chunk. */
    function GetHiddenStates(): (s: seq<int>)
      reads this
      requires Valid()
      ensures s == hiddenStates
      ensures IsChunkedCode(s, hiddenWidth, hiddenHeight, chunkSize)
    {
      hiddenStates
    }

    /** A copy of the current input of visible layer `v`, a chunked code of that layer's grid. */
    function GetInputs(v: int): (s: seq<int>)
      reads this
      requires Valid()
      requires 0 <= v < |inputs|
      ensures s == inputs[v]
      ensures visibleLayerDescs[v].Describes(s)
    {
      inputs[v]
    }

    /** A copy of the prediction for visible layer `v`, a chunked code of that layer's grid. */
    function GetPredictions(v: int): (s: seq<int>)
      reads this
      requires Valid()
      requires 0 <= v < |predictions|
      ensures s == predictions[v]
      ensures visibleLayerDescs[v].Describes(s)
    {
      predictions[v]
    }

    /** A copy of the current feedback `f`, a chunked code of the hidden grid. */
    function GetFeedBack(f: int): (s: seq<int>)
      reads this
      requires Valid()
      requires 0 <= f < |feedBack|
      ensures s == feedBack[f]
      ensures IsChunkedCode(s, hiddenWidth, hiddenHeight, chunkSize)
    {
      feedBack[f]
    }

    /** A copy of the previous timestep's feedback `f`, a chunked code of the hidden grid. */
    function GetFeedBackPrev(f: int): (s: seq<int>)
      reads this
      requires Valid()
      requires 0 <= f < |feedBackPrev|
      ensures s == feedBackPrev[f]
      ensures IsChunkedCode(s, hiddenWidth, hiddenHeight, chunkSize)
    {
      feedBackPrev[f]
    }

    /** The address of hidden unit (`x`, `y`)'s weight vector for visible layer `v`. */
    predicate IsUnit(v: int, x: int, y: int)
      reads this
    {
      InGrid(|visibleLayerDescs|, hiddenWidth, hiddenHeight, UnitCoord(v, x, y))
    }

    /**
     * The flat slot `v + V * (x + y * hiddenWidth)` read by both weight accessors:
     * it lies inside the weight vector, and it is the only slot there that
     * decodes to (`v`, `x`, `y`).
     */
    function WeightSlot(v: int, x: int, y: int): (i: int)
      reads this
      requires Valid() && IsUnit(v, x, y)
      ensures 0 <= i < |feedForwardWeights|
      ensures UnitCoordOf(|visibleLayerDescs|, hiddenWidth, i) == UnitCoord(v, x, y)
      ensures forall j :: 0 <= j < |feedForwardWeights| && UnitCoordOf(|visibleLayerDescs|, hiddenWidth, j) == UnitCoord(v, x, y) ==> j == i
    {
      var n := |visibleLayerDescs|;
      UnitIndexIsOnlySlot(n, hiddenWidth, hiddenHeight, UnitCoord(v, x, y));
      UnitIndex(n, hiddenWidth, UnitCoord(v, x, y))
    }

    /** The feedforward weights of hidden unit (`x`, `y`) for visible layer `v`: those stored at the slot that decodes to that unit. */
    function GetFeedForwardWeights(v: int, x: int, y: int): (w: seq<F>)
      reads this
      requires Valid() && IsUnit(v, x, y)
      ensures w == feedForwardWeights[WeightSlot(v, x, y)]
      ensures forall i :: 0 <= i < |feedForwardWeights| && UnitCoordOf(|visibleLayerDescs|, hiddenWidth, i) == UnitCoord(v, x, y) ==>
        w == feedForwardWeights[i]
    {
      feedForwardWeights[WeightSlot(v, x, y)]
    }

    /**
     * The prediction weights from feedback layer `f` of hidden unit (`x`, `y`) for
     * visible layer `v`: the `f`-th set, read at the slot that decodes to that unit.
     */
    function GetPredictionWeights(f: int, v: int, x: int, y: int): (w: seq<F>)
      reads this
      requires Valid() && 0 <= f < |feedBack| && IsUnit(v, x, y)
      ensures w == predictionWeights[f][WeightSlot(v, x, y)]
      ensures forall i :: 0 <= i < |feedForwardWeights| && UnitCoordOf(|visibleLayerDescs|, hiddenWidth, i) == UnitCoord(v, x, y) ==>
        w == predictionWeights[f][i]
    {
      predictionWeights[f][WeightSlot(v, x, y)]
    }

    /**
     * Every slot of the flat weight vectors belongs to a unit, and both accessors of
     * that unit read this very slot: the feedforward vector and, for every feedback
     * layer `f`, the `f`-th prediction-weight set.
     */
    lemma WeightSlotsCovered(i: int)
      requires Valid() && 0 <= i < |feedForwardWeights|
      ensures |visibleLayerDescs| > 0
      ensures var c := UnitCoordOf(|visibleLayerDescs|, hiddenWidth, i);
        && IsUnit(c.v, c.x, c.y)
        && GetFeedForwardWeights(c.v, c.x, c.y) == feedForwardWeights[i]
        && forall f :: 0 <= f < |feedBack| ==> GetPredictionWeights(f, c.v, c.x, c.y) == predictionWeights[f][i]
    {
      UnitIndexRoundTrip(|visibleLayerDescs|, hiddenWidth, hiddenHeight, i);
    }

    /** Distinct units read distinct weight vectors, for feedforward and prediction weights alike. */
    lemma DistinctUnitsDistinctSlots(v: int, x: int, y: int, v': int, x': int, y': int)
      requires Valid() && IsUnit(v, x, y) && IsUnit(v', x', y')
      requires (v, x, y) != (v', x', y')
      ensures WeightSlot(v, x, y) != WeightSlot(v', x', y')
    {
    }

    /**
     * Every chunked code the layer stores has exactly one active bit per chunk:
     * the hidden states, each visible layer's current and previous inputs and
     * its predictions, and each current and previous feedback buffer.
     */
    lemma CodesHaveOneWinnerPerChunk()
      requires Valid()
      ensures forall c :: 0 <= c < |hiddenStates| ==> CountActive(ChunkBitmap(chunkSize, hiddenStates[c])) == 1
      ensures forall v, c :: 0 <= v < |inputs| && 0 <= c < |inputs[v]| ==>
        CountActive(ChunkBitmap(visibleLayerDescs[v].chunkSize, inputs[v][c])) == 1
      ensures forall v, c :: 0 <= v < |predictions| && 0 <= c < |predictions[v]| ==>
        CountActive(ChunkBitmap(visibleLayerDescs[v].chunkSize, predictions[v][c])) == 1
      ensures forall v, c :: 0 <= v < |inputsPrev| && 0 <= c < |inputsPrev[v]| ==>
        CountActive(ChunkBitmap(visibleLayerDescs[v].chunkSize, inputsPrev[v][c])) == 1
      ensures forall f, c :: 0 <= f < |feedBack| && 0 <= c < |feedBack[f]| ==>
        CountActive(ChunkBitmap(chunkSize, feedBack[f][c])) == 1
      ensures forall f, c :: 0 <= f < |feedBackPrev| && 0 <= c < |feedBackPrev[f]| ==>
        CountActive(ChunkBitmap(chunkSize, feedBackPrev[f][c])) == 1
    {
      ChunkedCodeOneWinnerPerChunk(hiddenStates, hiddenWidth, hiddenHeight, chunkSize);
      forall v, c | 0 <= v < |inputs| && 0 <= c < |inputs[v]|
        ensures CountActive(ChunkBitmap(visibleLayerDescs[v].chunkSize, inputs[v][c])) == 1
      {
        ChunkHasOneActiveBit(visibleLayerDescs[v].chunkSize, inputs[v][c]);
      }
      forall v, c | 0 <= v < |predictions| && 0 <= c < |predictions[v]|
        ensures CountActive(ChunkBitmap(visibleLayerDescs[v].chunkSize, predictions[v][c])) == 1
      {
        ChunkHasOneActiveBit(visibleLayerDescs[v].chunkSize, predictions[v][c]);
      }
      forall f, c | 0 <= f < |feedBack| && 0 <= c < |feedBack[f]|
        ensures CountActive(ChunkBitmap(chunkSize, feedBack[f][c])) == 1
      {
        ChunkHasOneActiveBit(chunkSize, feedBack[f][c]);
      }
      forall v, c | 0 <= v < |inputsPrev| && 0 <= c < |inputsPrev[v]|
        ensures CountActive(ChunkBitmap(visibleLayerDescs[v].chunkSize, inputsPrev[v][c])) == 1
      {
        ChunkHasOneActiveBit(visibleLayerDescs[v].chunkSize, inputsPrev[v][c]);
      }
      forall f, c | 0 <= f < |feedBackPrev| && 0 <= c < |feedBackPrev[f]|
        ensures CountActive(ChunkBitmap(chunkSize, feedBackPrev[f][c])) == 1
      {
        ChunkHasOneActiveBit(chunkSize, feedBackPrev[f][c]);
      }
    }

    /**
     * Accessors are `const`: when no field changed between two states, every
     * accessor returns the same value in both, for every argument it accepts.
     */
    twostate lemma ReadsAreStable()
      requires old(Valid()) && unchanged(this)
      ensures Valid()
      ensures GetHiddenWidth() == old(GetHiddenWidth()) && GetHiddenHeight() == old(GetHiddenHeight())
      ensures GetChunkSize() == old(GetChunkSize())
      ensures GetNumVisibleLayers() == old(GetNumVisibleLayers())
      ensures GetNumFeedBackLayers() == old(GetNumFeedBackLayers())
      ensures GetHiddenStates() == old(GetHiddenStates())
      ensures forall v :: 0 <= v < |visibleLayerDescs| ==> GetVisibleLayerDesc(v) == old(GetVisibleLayerDesc(v))
      ensures forall v :: 0 <= v < |inputs| ==> GetInputs(v) == old(GetInputs(v))
      ensures forall v :: 0 <= v < |predictions| ==> GetPredictions(v) == old(GetPredictions(v))
      ensures forall f :: 0 <= f < |feedBack| ==> GetFeedBack(f) == old(GetFeedBack(f))
      ensures forall f :: 0 <= f < |feedBackPrev| ==> GetFeedBackPrev(f) == old(GetFeedBackPrev(f))
      ensures forall v, x, y :: IsUnit(v, x, y) ==>
        GetFeedForwardWeights(v, x, y) == old(GetFeedForwardWeights(v, x, y))
      ensures forall f, v, x, y :: 0 <= f < |feedBack| && IsUnit(v, x, y) ==>
        GetPredictionWeights(f, v, x, y) == old(GetPredictionWeights(f, v, x, y))
    {
    }
  }
}
