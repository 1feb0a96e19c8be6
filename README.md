# PulseOBS heart-rate core in Dafny

This project models the signal-extraction core of the PulseOBS plugin. The plugin
estimates a heart rate from video by remote photoplethysmography.

The model covers two source files:

- `src/algorithm/HeartRateAlgorithm.cpp`, steps per frame:
  - `extractRGB` unpacks a packed BGRA frame into a grid of (R, G, B) triples;
  - `MovingAvg::averageRGB` turns that grid into one three-channel sample;
  - `MovingAvg::updateWindows` pushes the sample onto an overlapping, capped set of windows;
  - `green` selects the green channel of the newest window;
  - `MovingAvg::calculateHeartRate` wires these together and returns `0.0`.
- `src/algorithm/FaceDetection.cpp`:
  - `detectFacesAndCreateMask` rejects a missing frame;
  - `initializeFaceCascade` loads the face classifier once;
  - the mask fill rasterises the detected rectangles into a height-by-width boolean mask.

Files:

- `wrappers.dfy`: `Option`, `Result` and `Outcome`.
- `bgra_frame.dfy`: `struct input_BGRA_data` and its byte offsets.
- `matrix_sums.dfy`: sums, means and transposition of integer grids. These specify the averaging.
- `window_set.dfy`: the window set as a pure transition `Step`, and what pushes do to it.
- `heart_rate_algorithm.dfy`: the imperative code, as methods with loops and a `MovingAvg` class.
- `face_detection.dfy`: the mask fill and a `FaceDetector` class holding the "cascade loaded" flag.

Modelling choices:

- Averages are exact: the integer channel sums divided as reals.
- The grid `extractRGB` returns is an `array2`, filled in place as in the source.
- The window set is a `seq` field of `MovingAvg`. `MovingAvg.PushSample` takes the source's
  `push_back`, `pop_back` and `erase` steps one by one on a local copy, and `UpdateWindows`
  assigns the result to the field once. Its meaning is the pure function `WindowSet.Step`.
- The stream a window set covers is `WindowSet.Stream`: the first window, then each later
  window without the samples it shares with its predecessor. It is the reference that
  the push lemmas relate the windows to.
- The face detector's output, the rectangles, is an input. Whether the cascade file loads
  is a boolean parameter.

Where the code does something a reader might not expect, the model follows the code:

- `extractRGB` checks neither a null pointer nor zero sizes.
- `extractRGB` writes pixel (x, y) to `frameRGB[x][y]` of a `height`-row grid, which is in
  bounds only for square frames. The model keeps the transposed write and requires such a
  frame. `HeartRateAlgorithm.TransposedWriteInBounds` shows this is exactly the in-bounds
  condition. `HeartRateAlgorithm.ExtractedGridAverage` shows the transposition does not
  change the averages.
- `averageRGB` has no mask and no all-zero result for an empty grid. It divides 0 by 0, so
  the model requires a non-empty grid.
- The second window is created at push `windowSize + 1`, holding `windowStride + 1`
  samples. It is full after `2 * windowSize - windowStride` pushes.
  `WindowSet.FirstRollover` states this first roll-over.
- A face rectangle with a negative origin marks nothing. The C++ comparison `y < height`
  converts the `int` to `uint32_t`, so a negative coordinate fails at once (for frames of
  at most 2^31 pixels a side; see "## Left out"). The model writes this conversion out
  (`FaceDetection.ToU32`).

## Model

| member | source | states |
|---|---|---|
| BgraFrame.OffsetDecodes | src/algorithm/HeartRateAlgorithm.cpp:74-79 | with `linesize >= 4 * width`, the offset `y*linesize + 4x + k` of an extracted byte lies in row y, inside the pixel bytes (not the padding), in pixel x at position k; so different pixels and channels read different bytes and the alpha byte is never read |
| HeartRateAlgorithm.TransposedWriteInBounds | src/algorithm/HeartRateAlgorithm.cpp:72-80 | the write `frameRGB[x][y]` into a `height` by `width` grid is in bounds for every pixel if and only if the frame is square or has no pixels |
| HeartRateAlgorithm.ExtractRgb | src/algorithm/HeartRateAlgorithm.cpp:65-85 | the grid has `height` rows of `width` cells and cell [x, y] holds (R, G, B) = (byte +2, byte +1, byte +0) of pixel (x, y) |
| HeartRateAlgorithm.MovingAvg.AverageRgb | src/algorithm/HeartRateAlgorithm.cpp:12-28 | returns three values, each the exact mean of its channel over all `rows * columns` cells of the grid |
| HeartRateAlgorithm.AverageOfTotals | src/algorithm/HeartRateAlgorithm.cpp:14-27 | once the two loops of `averageRGB` have visited every cell, the count is positive and the three sums divided by it are the channel means of the grid |
| HeartRateAlgorithm.GridAverageInByteRange | src/algorithm/HeartRateAlgorithm.cpp:12-28 | each of the three channel averages of any non-empty grid of bytes lies in [0, 255] |
| HeartRateAlgorithm.FrameAverageInByteRange | src/algorithm/HeartRateAlgorithm.cpp:14-27 | each of the three channel averages of a frame lies in [0, 255] |
| HeartRateAlgorithm.UniformFrameAverage | src/algorithm/HeartRateAlgorithm.cpp:14-27 | a frame whose pixels all have one colour averages to exactly that colour |
| HeartRateAlgorithm.ExtractedGridAverage | src/algorithm/HeartRateAlgorithm.cpp:94-95 | the averages of the transposed grid that `extractRGB` builds from a square frame are the frame's own channel means in image order |
| MatrixSums.MeanWithin | src/algorithm/HeartRateAlgorithm.cpp:14-27 | the mean of a non-empty grid whose entries lie in [lo, hi] lies in [lo, hi] |
| MatrixSums.MeanUniform | src/algorithm/HeartRateAlgorithm.cpp:14-27 | the mean of a non-empty grid of equal entries is that entry |
| MatrixSums.MeanTranspose | src/algorithm/HeartRateAlgorithm.cpp:72-80 | transposing a non-empty rectangular grid keeps it non-empty and keeps its mean |
| HeartRateAlgorithm.Green | src/algorithm/HeartRateAlgorithm.cpp:30-39 | the output has the input's length and element i is element 1 of input sample i |
| HeartRateAlgorithm.MovingAvg.constructor | src/algorithm/HeartRateAlgorithm.cpp:41-63 | the window set starts empty with the given parameters, and is valid when the parameters are |
| HeartRateAlgorithm.MovingAvg.PushSample | src/algorithm/HeartRateAlgorithm.cpp:41-63 | the branches of `updateWindows` (first window, append to a partial window, roll over from a full one, drop the front window beyond the cap) compute exactly `Step` of the window set |
| HeartRateAlgorithm.MovingAvg.UpdateWindows | src/algorithm/HeartRateAlgorithm.cpp:41-63 | the new window set is `Step` of the old one; a set in shape (well formed, within the cap) stays in shape, and a valid set (in shape, every sample three channels) stays valid when the sample has three channels |
| HeartRateAlgorithm.MovingAvg.ValidIsReady | src/algorithm/HeartRateAlgorithm.cpp:41-63 | a valid state can take a push from a full last window, keeps a window after the push, and every sample of its last window has a green entry |
| HeartRateAlgorithm.MovingAvg.CalculateHeartRate | src/algorithm/HeartRateAlgorithm.cpp:87-109 | pushes exactly one sample, the frame's average, onto the window set, keeps it in shape and valid, and returns 0.0; a window with green entries is needed only when `ppg` is 0, and a valid state always has one |
| HeartRateAlgorithm.StepKeepsThreeChannels | src/algorithm/HeartRateAlgorithm.cpp:41-63 | pushing a three-channel sample onto windows of three-channel samples keeps every stored sample three channels |
| HeartRateAlgorithm.StepKeepsShape | src/algorithm/HeartRateAlgorithm.cpp:41-63 | a push keeps a window set in shape (well formed, within the cap), and keeps every sample three channels when the new sample has three |
| HeartRateAlgorithm.StepLeavesGreenWindow | src/algorithm/HeartRateAlgorithm.cpp:41-63 | when the last window's samples have a green entry and so does the new sample, the set is non-empty after the push and every sample of its last window has a green entry |
| WindowSet.StepStartsFirstWindow | src/algorithm/HeartRateAlgorithm.cpp:43-46 | a push onto an empty window set leaves exactly one window holding just the sample |
| WindowSet.StepAppendsToPartial | src/algorithm/HeartRateAlgorithm.cpp:54-62 | a push onto a window that is not full appends the sample to it and keeps every other window and their order, except that the front one is dropped when over the cap |
| WindowSet.StepRollsOver | src/algorithm/HeartRateAlgorithm.cpp:50-53 | a push onto a full window keeps it and appends a new window made of its last `windowStride` samples and the sample, dropping the front window only when over the cap |
| WindowSet.StepWithinCap | src/algorithm/HeartRateAlgorithm.cpp:60-62 | with a cap of at least one, a set within the cap stays within it and is non-empty after a push |
| WindowSet.StepNonEmptyIff | src/algorithm/HeartRateAlgorithm.cpp:41-63 | a push leaves at least one window exactly when the cap is at least one, the set was empty, held two or more windows, or its last window was full |
| WindowSet.StepNewestIsLast | src/algorithm/HeartRateAlgorithm.cpp:41-63 | after a push the newest sample is the final sample of the last window |
| WindowSet.StepPreservesWellFormed | src/algorithm/HeartRateAlgorithm.cpp:41-63 | a push keeps every window but the last full, the last non-empty, and each later window starting with the last `windowStride` samples of the one before |
| WindowSet.StepStream | src/algorithm/HeartRateAlgorithm.cpp:41-63 | a push extends the covered stream by exactly the sample and an eviction removes only the oldest `windowSize - windowStride` samples from its front (first in, first out) |
| WindowSet.PushAllShape | src/algorithm/HeartRateAlgorithm.cpp:41-63 | after any run of pushes from an empty set the set is well formed, within the cap, non-empty exactly when a sample was pushed, and ends with the newest sample |
| WindowSet.PushAllStream | src/algorithm/HeartRateAlgorithm.cpp:41-63 | after any run of pushes from an empty set the windows cover the most recent samples pushed, in order |
| WindowSet.PushAllFillsFirstWindow | src/algorithm/HeartRateAlgorithm.cpp:43-58 | the first `windowSize` pushes fill a single window with the samples in order |
| WindowSet.FirstRollover | src/algorithm/HeartRateAlgorithm.cpp:43-62 | push `windowSize + 1` (with room for two windows) gives the full first window and a second one starting with its last `windowStride` samples followed by the new sample |
| FaceDetection.ToU32 | src/algorithm/FaceDetection.cpp:53-54 | the `int` to `uint32_t` conversion of the loop comparisons: non-negative values unchanged, negative ones raised by 2^32 to at least 2^31 |
| FaceDetection.CoveredIffSome | src/algorithm/FaceDetection.cpp:52-58 | a pixel is marked by the rectangles exactly when some rectangle (with non-negative origin) contains it |
| FaceDetection.CoveredPermutation | src/algorithm/FaceDetection.cpp:52-58 | reordering the rectangles does not change which pixels are marked |
| FaceDetection.RasterizeFaces | src/algorithm/FaceDetection.cpp:49-58 | the mask has `height` rows of `width` entries, entry [y][x] is true exactly when a rectangle covers (x, y) (so all false with no rectangles), and every write is in bounds |
| FaceDetection.FaceDetector.constructor | src/algorithm/FaceDetection.cpp:5-6 | the cascade starts unloaded, with no successful load |
| FaceDetection.FaceDetector.InitializeFaceCascade | src/algorithm/FaceDetection.cpp:9-16 | an already loaded cascade is not loaded again; otherwise a successful load sets the flag, and a failed one reports an error and leaves the flag false so a later call retries; at most one load ever succeeds |
| FaceDetection.FaceDetector.DetectFacesAndCreateMask | src/algorithm/FaceDetection.cpp:19-61 | a missing frame or missing data is an error with no state change and no mask; a failed cascade load is an error; otherwise the cascade counts as loaded (one more successful load if it was not loaded before) and the result is the fresh rasterised mask of the rectangles |

## Left out

- The OBS plugin glue is not part of this model. That covers texture rendering, surface mapping, text sources, the widget and the `src/pulse.cpp` draft. It is host, GPU and UI code with nothing to state.
- The global `MovingAvg avg` (`src/heart_rate_source.cpp:16`) is left out; the model uses an owned instance. The lock at `src/heart_rate_source.cpp:306` guards only the frame pointer, and concurrency is out of scope.
- `src/algorithm/patches-face-detection.cpp` is left out: it consists only of dlib and OpenCV calls.
- The OpenCV steps of `detectFacesAndCreateMask` are abstract: the `cv::Mat` wrap and crop, the BGR conversion and `detectMultiScale` (FaceDetection.cpp:35-46). The rectangles are an input, and the cascade load result is a parameter. OpenCV's own exceptions are not modelled, such as those for a zero-size frame or a crop wider than `linesize / 4`: in those cases the model returns the mask.
- `moving_average`, `average_keyed`, `magnify_colour_ma` and `Welch_cpu_heart_rate` are left out. They are declared in `src/algorithm/HeartRateAlgorithm.h:26-34`, and `HeartRateAlgorithm.cpp` does not define them.
- The `MovingAvg` declared in that header does not match the definitions in the `.cpp`. It has other fields (`fps`, `update_time`, `maxBufSize`, `prev_hr`, `frame_data`), and its `calculateHeartRate` has a different signature. The model follows the `.cpp`. There, `windowSize`, `windowStride`, `maxNumWindows` and `windows` are members, so the model takes the three parameters as constructor arguments.
- The build tooling is left out.
- HeartRateAlgorithm.MovingAvg.AverageRgb: does not model `double` rounding. The sums are exact; this matches the source while a sum stays below 2^53.
- HeartRateAlgorithm.MovingAvg.AverageRgb: the empty grid, where the source returns NaN, is excluded by a precondition.
- HeartRateAlgorithm.ExtractRgb: requires that the `uint32_t` offset `y * linesize + x * 4 + k` does not wrap and stays inside the buffer. The C++ code checks neither.
- HeartRateAlgorithm.ExtractRgb: requires a square frame (or one with no pixels). Other frames write out of bounds in the source, which is undefined behaviour.
- HeartRateAlgorithm.MovingAvg.CalculateHeartRate: requires a valid state, or else one that `updateWindows` can push onto and, when `ppg` is 0, where `windows.back()` exists after the push and its samples have a green entry. Only the `ppg == 0` case indexes `windows.back()`, unchecked; a valid state always meets this (`HeartRateAlgorithm.MovingAvg.ValidIsReady`). The `switch` falls through to `default: break`, which has no effect. `preFilter` and `postFilter` are unused.
- HeartRateAlgorithm.MovingAvg.UpdateWindows: requires, when the last window is full, that `windowStride` is non-negative and at most that window's length. Otherwise `last.end() - windowStride` (HeartRateAlgorithm.cpp:51) is an out-of-range iterator. A valid state always meets this.
- FaceDetection.RasterizeFaces: requires frame sizes of at most 2^31 and rectangles whose `x + width` and `y + height` fit an `int`. Without these the source overflows or indexes the mask with a negative row.
- FaceDetection.FaceDetector.InitializeFaceCascade: the classifier object and the cascade file are not modelled, only the flag and the load result.
