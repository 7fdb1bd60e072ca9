# EOgmaNeo layer: state, accessors and flat addressing

This project models the layer of an EOgmaNeo hierarchy (`eogmaneo::Layer`) as declared in
`source/eogmaneo/Layer.h`. A layer owns the following:

- a hidden grid of `hiddenWidth × hiddenHeight` units, cut into square chunks of side `chunkSize`;
- one `VisibleLayerDesc` per visible (input) layer;
- sparse codes in chunked format (one winning bit per chunk): hidden states, inputs,
  previous inputs, predictions, feedback and previous feedback;
- one feedforward weight vector per (visible layer, hidden unit) pair, and one such set of
  prediction weights per feedback layer.

The header gives bodies only to expressions: the default initialiser of `VisibleLayerDesc`,
the `const` getters, the flat weight index `v + V * (x + y * hiddenWidth)`, and the
constructors of the three work items, which only set their layer pointer to null. Here
`V` is the number of visible layers. The model covers all of these except the work items
(see "## Left out").

- `addressing.dfy` (module `Addressing`) treats the weight index as a mixed-radix number.
  It proves the index's range, its decoding `v = i % V`, `x = (i / V) % hiddenWidth`,
  `y = i / (V * hiddenWidth)`, its injectivity, and that it covers every slot. When
  `V * hiddenWidth * hiddenHeight <= 2^31`, it also proves that the source's `int`
  intermediates do not overflow and that narrowing the index to `int` loses nothing. The same module defines chunked codes. It proves that a chunk
  of side `chunkSize` has `chunkSize²` bit positions, and that a chunked code has exactly one
  active bit per chunk.
- `layer.dfy` (module `EogmaNeoLayer`) holds the `VisibleLayerDesc` datatype and its defaults.
  It also holds the `Layer` class, with the fields of the source class and its `Valid()`
  invariant. The getters are functions that read the object, so they change nothing and give
  the same answer while no field changes. Weights and float accumulators have an opaque
  element type `F`, because they are only stored and returned.

Model decisions:

- Every getter requires `Valid()`, the layer invariant that the unmodelled `create`, `forward`
  and `backward` are taken to establish. The source's getters read the fields in any state.
  The source also indexes `std::vector`s without checks, so an index outside a vector is
  undefined behaviour there. Beyond `Valid()`, the descriptor and code getters require exactly
  that the index is inside the vector, and the count getters take no index. The two weight
  getters are stricter than the source; see "## Left out".
- Layer.h does not spell out the shape of a chunked code. The model takes it as one entry
  per whole chunk, `(width / chunkSize) · (height / chunkSize)` entries, each in
  `[0, chunkSize²)`. Feedback codes are taken to have the hidden grid's shape.
- The source's C++ `Layer` has only an implicit constructor. The model's `constructor()`
  mirrors it: every vector starts empty, and the scalars are left unspecified. The fields are
  then filled in by `create` and by friend classes, which are not modelled. So a client assigns
  the fields directly until the layer is `Valid()`.

## Model

| member | source | states |
|---|---|---|
| `Addressing.UnitIndexInRange` | source/eogmaneo/Layer.h:265-268 | for `0 <= v < V`, `0 <= x < hiddenWidth`, `0 <= y < hiddenHeight`, the index `v + V*(x + y*hiddenWidth)` lies in `[0, V*hiddenWidth*hiddenHeight)` |
| `Addressing.UnitCoordRoundTrip` | source/eogmaneo/Layer.h:266 | decoding the index by `i % V`, `(i / V) % hiddenWidth`, `i / (V*hiddenWidth)` gives back `(v, x, y)` (for any row `y`) |
| `Addressing.UnitIndexRoundTrip` | source/eogmaneo/Layer.h:266 | every `i` in `[0, V*hiddenWidth*hiddenHeight)` decodes to an in-grid unit whose index is `i`: the index reaches every slot |
| `Addressing.UnitIndexIsOnlySlot` | source/eogmaneo/Layer.h:266-268 | the index of an in-grid unit lies in the flat vector and is the only slot there that decodes to that unit |
| `Addressing.OffGridIndexIsAnotherUnit` | source/eogmaneo/Layer.h:265-268 | a triple outside the grid whose index still lands in the flat vector reads the vector of a different, in-grid unit |
| `Addressing.UnitIndexInjective` | source/eogmaneo/Layer.h:266 | two units with in-range `v` and `x` and the same index are the same unit |
| `Addressing.UnitIndexFitsInt` | source/eogmaneo/Layer.h:266 | when the flat vector has at most 2^31 entries, `y*hiddenWidth`, `x + y*hiddenWidth` and the index all lie in `[0, INT_MAX]`, so the source's `int` arithmetic equals the mathematical index |
| `Addressing.ChunkPositionIsBit` | source/eogmaneo/Layer.h:91-95 | each position `(dx, dy)` inside a chunk of side `chunkSize` gets its own bit number in `[0, chunkSize²)`, from which `%` and `/` recover the position |
| `Addressing.ChunkBitIsPosition` | source/eogmaneo/Layer.h:91-95 | each bit number in `[0, chunkSize²)` is the number of a position inside the chunk, so a chunk has exactly `chunkSize²` bits |
| `Addressing.ChunkHasOneActiveBit` | source/eogmaneo/Layer.h:91-95 | a chunk's dense bits have exactly one active bit if its chunked-code entry lies in `[0, chunkSize²)`, and none otherwise (both directions) |
| `Addressing.ChunkedCodeOneWinnerPerChunk` | source/eogmaneo/Layer.h:227-232 | in a chunked code, every chunk has exactly one active bit |
| `EogmaNeoLayer.DefaultVisibleLayerDesc` | source/eogmaneo/Layer.h:107-114 | the default descriptor has width 36, height 36, chunkSize 6, radius 9, predict true; its grid splits exactly into 36 chunks of 36 bits |
| `EogmaNeoLayer.Layer.constructor` | source/eogmaneo/Layer.h:120-152 | the implicit default construction: every vector field is empty |
| `EogmaNeoLayer.Layer.GetHiddenWidth` | source/eogmaneo/Layer.h:190-192 | returns the stored hidden width, which is positive |
| `EogmaNeoLayer.Layer.GetHiddenHeight` | source/eogmaneo/Layer.h:194-196 | returns the stored hidden height, which is positive |
| `EogmaNeoLayer.Layer.GetChunkSize` | source/eogmaneo/Layer.h:202-204 | returns the stored chunk size, which is positive, and the hidden states hold one entry per hidden chunk |
| `EogmaNeoLayer.Layer.GetNumVisibleLayers` | source/eogmaneo/Layer.h:209-211 | equals the number of stored descriptors. It also equals the number of input, previous-input and prediction buffers, and times the hidden area it is the number of feedforward weight vectors |
| `EogmaNeoLayer.Layer.GetVisibleLayerDesc` | source/eogmaneo/Layer.h:216-218 | returns the `v`-th stored descriptor, which is valid and describes the shape of the layer's inputs and predictions for `v` |
| `EogmaNeoLayer.Layer.GetNumFeedBackLayers` | source/eogmaneo/Layer.h:223-225 | equals the number of feedback buffers, and also the number of previous-feedback buffers and of prediction-weight sets |
| `EogmaNeoLayer.Layer.GetHiddenStates` | source/eogmaneo/Layer.h:230-232 | returns a copy equal to the stored hidden states, a chunked code of the hidden grid |
| `EogmaNeoLayer.Layer.GetInputs` | source/eogmaneo/Layer.h:237-239 | returns a copy equal to the stored input of visible layer `v`, a chunked code of that layer's grid |
| `EogmaNeoLayer.Layer.GetPredictions` | source/eogmaneo/Layer.h:244-246 | returns a copy equal to the stored prediction for visible layer `v`, a chunked code of that layer's grid |
| `EogmaNeoLayer.Layer.GetFeedBack` | source/eogmaneo/Layer.h:251-253 | returns a copy equal to stored feedback `f`, a chunked code of the hidden grid |
| `EogmaNeoLayer.Layer.GetFeedBackPrev` | source/eogmaneo/Layer.h:258-260 | returns a copy equal to the previous timestep's feedback `f`, a chunked code of the hidden grid |
| `EogmaNeoLayer.Layer.WeightSlot` | source/eogmaneo/Layer.h:266 | the slot `UnitIndex`, `v + V*(x + y*hiddenWidth)`, of an in-grid unit lies inside the weight vector and is the only slot there that decodes to that unit |
| `EogmaNeoLayer.Layer.GetFeedForwardWeights` | source/eogmaneo/Layer.h:265-269 | returns the feedforward weight vector stored at `WeightSlot(v, x, y)`, which is the slot that decodes to `(v, x, y)` |
| `EogmaNeoLayer.Layer.GetPredictionWeights` | source/eogmaneo/Layer.h:274-278 | returns the vector at `WeightSlot(v, x, y)`, the slot that decodes to `(v, x, y)`, taken from the `f`-th prediction-weight set: the same unit slot as the feedforward accessor |
| `EogmaNeoLayer.Layer.WeightSlotsCovered` | source/eogmaneo/Layer.h:265-278 | every slot of the flat weight vectors belongs to an in-grid unit. For that unit, both the feedforward accessor and, for every `f`, the prediction accessor read this slot |
| `EogmaNeoLayer.Layer.DistinctUnitsDistinctSlots` | source/eogmaneo/Layer.h:265-278 | distinct units read distinct slots |
| `EogmaNeoLayer.Layer.CodesHaveOneWinnerPerChunk` | source/eogmaneo/Layer.h:126-148 | every stored chunked code has exactly one active bit per chunk. This covers the hidden states; the current inputs, previous inputs and predictions of each visible layer; and each current and previous feedback buffer |
| `EogmaNeoLayer.Layer.ReadsAreStable` | source/eogmaneo/Layer.h:190-260 | between two states in which no field of the layer changed, all 13 accessors return the same value for every argument they accept (also when there are no feedback layers): the getters are `const` |

## Left out

- `create`, `forward` and `backward` (Layer.h:167-184) are left out. So is `run` of `ForwardWorkItem`, `BackwardWorkItem` and `PredictionWorkItem` (Layer.h:39, 57, 76). Only their declarations are in Layer.h, and their bodies (float learning rules dispatched on a thread pool) are not part of this model.
- Every getter: requires `Valid()`, while the source's getters read the fields in any state. The invariant is what the unmodelled `create`, `forward` and `backward` are taken to keep, and the model states nothing about a layer outside it.
- The work-item classes `ForwardWorkItem`, `BackwardWorkItem` and `PredictionWorkItem` (Layer.h:27-77) are not modelled. That includes their back-pointer `_pLayer`, their chunk and visible-layer index fields, and their constructors (Layer.h:35-37, 53-55, 72-74). They exist only to dispatch the left-out `run` bodies on the thread pool.
- `sigmoid` (Layer.h:22) is left out: it is floating point, and its body is not part of this model.
- The `std::mt19937` generators of the work items (Layer.h:33, 51, 70) are left out. They come from an external library and are used only inside the left-out `run` bodies.
- `ComputeSystem` and `WorkItem` (Layer.h:11) are the thread-pool plumbing. ComputeSystem.h is not part of this model.
- `createFromStream` and `writeToStream` (Layer.h:154-155) are stream I/O and are left out.
- The float fields are kept as opaque stored values of type `F`, with no arithmetic. These are the weights, `_recon*`, `_prediction*` accumulators and `_alpha`, `_beta`, `_gamma`. The shapes of the accumulators are not constrained, because Layer.h never indexes them.
- EogmaNeoLayer.Layer.GetFeedForwardWeights: the source returns a `const` reference into the layer's storage, and the model returns the value. So aliasing is not modelled: a reference would show later changes to the stored vector, but the model's result does not. The same holds for `GetPredictionWeights` and `GetVisibleLayerDesc`.
- EogmaNeoLayer.Layer.GetFeedForwardWeights and `GetPredictionWeights` require each of `v`, `x` and `y` to be in range. The source accepts any triple whose flat index lands inside the vector, and then reads another unit's weights; for example, when `hiddenHeight >= 2`, `(0, hiddenWidth, 0)` reads the vector of unit `(0, 0, 1)`. The model does not offer that call. `OffGridIndexIsAnotherUnit` states what such a call would read.
- EogmaNeoLayer.Layer.GetPredictionWeights: the same range restriction as `GetFeedForwardWeights`, applied to `v`, `x` and `y` within the `f`-th prediction-weight set.
- The `size_t` arithmetic of `_visibleLayerDescs.size() * (...)` is not modelled bit for bit. The model uses unbounded integers, and `UnitIndexFitsInt` states when they agree with the source.
