# Ping-pong radix-2 FFT of tessen-wave, modelled in Dafny

tessen-wave computes ocean-surface spectra with a radix-2 FFT. The FFT alternates between two
equally long buffers. `Swap<T>` (src/swapspace.rs) binds two values to the roles `a` and `b`.
Over a pair of mutable slices it offers views:

- `index`, `index_from` and `index_to` cut the same range out of both slices;
- `swapped` exchanges the roles.

It also offers three transforms:

- `fft` copies `a` into `b` and runs the recursive `fft_inner(n, step)`;
- `transpose` rewrites an `l x l` grid from `a` into `b` and swaps the roles;
- `fft2d` alternates a per-row `fft` with `transpose`.

`fft_to` (src/fft.rs) is the same kernel written over two plain slices.

Each level of the recursion first runs the two half-size levels on the swapped buffers: one at
the level's start and one `step` cells later. Then its butterfly loop reads `b` and writes `a`.

The model keeps the source's shape:

- `Swap` is a datatype.
- The slice pair is a class `SwapSlices` with two arrays and a flag saying which one plays `a`.
- A view is a datatype `View` (the flag and a range of positions).
- `fft`, `fft_inner`, the butterfly loop, `transpose`, `row_fft` and `fft2d` are methods that
  update the arrays in place.
- `fft_to` and its nested `fft_inner` are methods over two arrays.

Element arithmetic (`Complex<T>` with `+`, `-`, `*`) and the twiddle `exp(-pi * I * i / n)` are
left abstract: the record `Kernel.Arith` supplies them.

Each method is proved against a specification function:

- `SwapSpace.PingPong` gives both buffers after `fft_inner`. It is defined level by level from
  `Passes`, the butterfly loop's effect.
- `Kernel.Combine` gives the values a recursion level leaves at its positions.
- `Kernel.Transform` is the top level, and what `fft` and `fft_to` promise.
- `Grid.RowTransforms`, `Grid.Transposed` and `Grid.Transform2d` do the same for the 2D
  operations.

The lemma `SwapSpace.PingPongLevel` ties the spec functions together. It shows that the
buffer-swapping recursion leaves `Combine`'s values at each level's positions and writes
nothing else.

## Model

| member | source | states |
|---|---|---|
| SwapSpace.Swap.IntoAb | src/swapspace.rs:22-24 | `into_ab` gives the pair (a, b); `from_ab` of that pair is the same binding again |
| SwapSpace.Swap.SwapBinding | src/swapspace.rs:35-40 | `swap_binding` gives the binding whose `into_ab` is (b, a) |
| SwapSpace.FromAb | src/swapspace.rs:28-33 | `from_ab(a, b)` binds the first value to a and the second to b |
| SwapSpace.SwapBindingExchanges | src/swapspace.rs:35-40 | `swap_binding` exchanges the two roles; doing it twice gives the original pair back |
| SwapSpace.SwapScenario | src/swapspace.rs:191-196 | `test_swap`: `from_ab(10, 20)`, swapped, gives `(20, 10)` from `into_ab` |
| SwapSpace.View.Index | src/swapspace.rs:45-50 | `index(start..end)` keeps the roles and cuts a range of length end - start inside the parent's range |
| SwapSpace.View.IndexFrom | src/swapspace.rs:51-56 | `index_from(start..)` keeps the roles and the parent's end; its length is the parent's minus start |
| SwapSpace.View.IndexTo | src/swapspace.rs:57-62 | `index_to(..end)` keeps the roles and the parent's start; its length is end |
| SwapSpace.View.Swapped | src/swapspace.rs:64-71 | `swapped` exchanges the roles over the same range |
| SwapSpace.IndexCells | src/swapspace.rs:45-50 | `index(start..end)` is a view of length end - start; its position k is position start + k of the parent on the same two buffers, a and b on different buffers |
| SwapSpace.IndexFromCells | src/swapspace.rs:51-56 | `index_from(start..)` keeps the parent's end; its position k is the parent's start + k |
| SwapSpace.IndexToCells | src/swapspace.rs:57-62 | `index_to(..end)` keeps the parent's start; its position k is the parent's k |
| SwapSpace.SwappedCells | src/swapspace.rs:64-71 | `swapped` reads b as a and a as b; swapping twice is the identity |
| SwapSpace.SwapSlices.constructor | src/swapspace.rs:28-33 | `from_ab` over two distinct equal-length slices: x plays a, y plays b |
| SwapSpace.SwapSlices.Swap | src/swapspace.rs:19-21 | `swap` exchanges the roles (the `Swap` value becomes its `swap_binding`) and moves no data |
| SwapSpace.SwapSlices.Fft | src/swapspace.rs:79-87 | `fft` on a view whose length is a power of two: a's range ends up as the transform of its old contents; no position outside the view changes in either buffer |
| SwapSpace.SwapSlices.CloneFrom | src/swapspace.rs:85 | `clone_from_slice`: b's range takes a's values; the rest of b is unchanged |
| SwapSpace.SwapSlices.FftInner | src/swapspace.rs:89-112 | `fft_inner(n, step)` leaves both buffers as PingPong computes from their old contents (base case, the two recursive calls on swapped views, then the loop) |
| SwapSpace.SwapSlices.Butterflies | src/swapspace.rs:102-111 | the loop over i in (0..n).step_by(2*step) after `split_at_mut(n/2)` leaves a as Passes of its old contents; b is only read |
| SwapSpace.SwapSlices.Butterfly | src/swapspace.rs:106-110 | one iteration: left[i/2] = b[i] + t and right[i/2] = b[i] - t, with t = tw(i, n) * b[i + step] |
| SwapSpace.SwapSlices.Transpose | src/swapspace.rs:127-138 | `transpose`: the new a is the transposed l x l grid of the old a, followed by b's old cells past l*l; the new b is the old a; the roles have swapped |
| SwapSpace.SwapSlices.RowFft | src/swapspace.rs:139-145 | `row_fft`: the grid in a becomes RowTransforms of its old contents; cells past l*l of both buffers are unchanged |
| SwapSpace.SwapSlices.RowPass | src/swapspace.rs:142-144 | one iteration of `row_fft`'s loop: rows before i+1 are transformed, everything from row i+1 on still holds its old value |
| SwapSpace.SwapSlices.FftRow | src/swapspace.rs:143 | `index(p..q).fft()`: a's cells p..q become their transform; both buffers keep every cell outside p..q |
| SwapSpace.SwapSlices.Fft2d | src/swapspace.rs:118-123 | `fft2d` (row_fft, transpose, row_fft, transpose) leaves Transform2d of the old grid in a with the roles as before; cells past l*l are unchanged |
| SwapSpace.PingPong | src/swapspace.rs:89-112 | the buffer contents after `fft_inner`: both keep their lengths; defined level by level, the buffers trading roles at each recursive call |
| SwapSpace.PingPongLevel | src/swapspace.rs:89-112 | when both buffers hold the input at a level's positions, `fft_inner` leaves Combine's values there in a and changes neither buffer at any position the level does not own |
| SwapSpace.LevelBase | src/swapspace.rs:94-96 | once step >= n nothing changes, and a level of step n holds its one input value |
| SwapSpace.LevelDone | src/swapspace.rs:99-111 | the two half-size levels followed by the loop leave the level's butterfly in a and keep every position the level does not own, in both buffers |
| SwapSpace.LevelResult | src/swapspace.rs:104-111 | when b holds the even and odd halves at their positions, the loop writes their butterfly at the level's positions of a |
| SwapSpace.LevelResultAt | src/swapspace.rs:109-110 | the value at position t of the level comes from iteration t (the sum) when t < n/(2*step), else from iteration t - n/(2*step) (the difference) |
| SwapSpace.TopLevel | src/swapspace.rs:84-86 | after `clone_from_slice`, `fft_inner(l, 1)` leaves the transform of a's range in a and touches nothing outside the range |
| SwapSpace.CloneRange | src/swapspace.rs:85 | b after the copy equals a on lo..hi and its old self elsewhere |
| SwapSpace.Passes | src/swapspace.rs:104-111 | the contents of a after the first k iterations of the loop; length preserved |
| SwapSpace.Pass | src/swapspace.rs:106-110 | a after one iteration; length preserved |
| SwapSpace.PassesAt | src/swapspace.rs:104-111 | iteration t writes the sum at lo + step*t and the difference at lo + n/2 + step*t, and no later iteration overwrites them |
| SwapSpace.PassesKept | src/swapspace.rs:104-111 | every iteration writes only positions of the level |
| SwapSpace.KeptPass | src/swapspace.rs:109-110 | an iteration whose two targets belong to the level keeps every other position |
| SwapSpace.PassWrites | src/swapspace.rs:109-110 | an iteration stores b[i] + t and b[i] - t at its two targets |
| SwapSpace.PassKeeps | src/swapspace.rs:109-110 | an iteration changes no position except its two targets |
| SwapSpace.IterationBounds | src/swapspace.rs:104-110 | iteration i = 2*step*k < n reads b[i] and b[i + step] and writes left[i/2] and right[i/2] inside the view; the next index is 2*step*(k+1) |
| SwapSpace.ButterflyBounds | src/swapspace.rs:102-110 | `left` and `right` from `split_at_mut(n/2)`: left[i/2] lies in the first n/2 cells and right[i/2] = a[n/2 + i/2] lies inside the view |
| SwapSpace.LoopCount | src/swapspace.rs:104 | the loop index 2*step*k is below n exactly while k < n/(2*step) |
| SwapSpace.AgreesEven | src/swapspace.rs:99 | the first recursive call's positions are among the level's own |
| SwapSpace.AgreesOdd | src/swapspace.rs:100 | the second recursive call (`index_from(step..)`) reads level positions that the first call did not change |
| SwapSpace.HoldsOutsideOdd | src/swapspace.rs:99-100 | the second recursive call leaves the first call's results in place |
| SwapSpace.KeptLevel | src/swapspace.rs:99-111 | the positions that the two recursive calls and the loop change all belong to the level |
| SwapSpace.LevelSingle | src/swapspace.rs:94-96 | at step n the level owns one position, which keeps its input value |
| SwapSpace.TransposedCell | src/swapspace.rs:131-134 | with ind(x, y) = y*l + x, the assignment b[ind(j, i)] = a[ind(i, j)] writes cell i*l + j of the transposed grid from cell j*l + i of a |
| Fft.FftTo | src/fft.rs:7-35 | `fft_to` on equally long inputs whose length equals its `next_power_of_two`: outputs holds the transform of the old inputs; inputs is used as scratch |
| Fft.FftInner | src/fft.rs:11-30 | the nested `fft_inner(buf_a, buf_b, n, step)` on the tails of both buffers from lo: both buffers end up as PingPong computes |
| Fft.Butterflies | src/fft.rs:23-29 | the loop after `split_at_mut(n/2)` leaves buf_a as Passes of its old contents; buf_b is only read |
| Fft.TopLevelSame | src/fft.rs:33-34 | after `outputs.clone_from_slice(inputs)` both buffers hold the input, and `fft_inner(outputs, inputs, l, 1)` leaves its transform in outputs |
| Kernel.Combine | src/swapspace.rs:99-110 | the values level (o, s) leaves at its n/s positions: one input value at s = n, otherwise the butterflies of the levels (o, 2s) and (o + s, 2s) |
| Kernel.Transform | src/swapspace.rs:86 | the top level (offset 0, step 1); the result is as long as the input |
| Kernel.CombineStep | src/swapspace.rs:108-110 | entry k of a level is even[k] + tw(2*s*k, n) * odd[k]; entry n/(2s) + k is even[k] - tw(2*s*k, n) * odd[k] |
| Kernel.CombineButterflied | src/swapspace.rs:108-110 | a level is the butterfly of its two half-size levels, entry by entry |
| Kernel.TransformSingle | src/swapspace.rs:94-96 | a length-1 input is its own transform |
| Kernel.CombineLocal | src/swapspace.rs:99-100 | a level reads the input only at its own positions o + s*t |
| Kernel.ClassNarrow | src/swapspace.rs:99 | the first child level's positions are among its parent's |
| Kernel.ClassOdd | src/swapspace.rs:100 | the second child level's positions are among its parent's and disjoint from the first child's |
| Kernel.ClassAt | src/swapspace.rs:109-110 | lo + s*t is a position of the level starting at lo with stride s |
| Kernel.StepBy | src/swapspace.rs:104 | (lo..hi).step_by(k): item t is lo + k*t and below hi, and the item after the last would not be below hi |
| Kernel.StepByExact | src/swapspace.rs:104 | (lo..lo + k*c).step_by(k) yields lo, lo + k, ..., lo + k*(c-1) |
| Kernel.LevelTargets | src/swapspace.rs:102-110 | a level's loop runs n/(2s) times; left writes hit s*t and right writes n/2 + s*t |
| Kernel.TopLevelTargets | src/swapspace.rs:102-110 | at step 1 the left targets followed by the right targets list 0..n once each; the loop itself interleaves them (0, n/2, 1, n/2 + 1, ...) |
| Kernel.LevelsCount | src/swapspace.rs:94-99 | doubling step from s reaches n after log2(n/s) levels, so the recursion is log2(n) deep |
| PowerOfTwo.IsPow2 | src/swapspace.rs:81 | `is_power_of_two`: n is 2^e for some e, so n >= 1 |
| PowerOfTwo.NextPow2 | src/fft.rs:9 | `next_power_of_two`: a power of two at least n |
| PowerOfTwo.NextPow2Fixed | src/fft.rs:9 | n == n.next_power_of_two() exactly when n is a power of two (0 fails) |
| Grid.Transposed | src/swapspace.rs:131-136 | cell (i, j) of the transposed grid is cell (j, i) of the input; same length |
| Grid.TransposeInvolution | src/swapspace.rs:127-138 | transposing twice gives the grid back |
| Grid.Row | src/swapspace.rs:143 | row i is positions i*l .. (i+1)*l; entry j is cell (i, j) |
| Grid.RowCol | src/swapspace.rs:131 | index i*l + j lies in the grid and gives back row i and column j |
| Grid.Split | src/swapspace.rs:131 | every index of the grid is the cell of row p/l, column p%l |
| Grid.RowTransforms | src/swapspace.rs:139-145 | `row_fft`'s result, cell by cell: entry p % l of the transform of row p / l; length l*l |
| Grid.RowTransformsAt | src/swapspace.rs:139-145 | cell (i, j) of `row_fft`'s result is entry j of the transform of row i |
| Grid.RowSlice | src/swapspace.rs:143 | positions i*l .. i*l + l of `row_fft`'s result are the transform of the same positions of the input |
| Grid.RowLoopStep | src/swapspace.rs:142-144 | transforming one more row extends the transformed prefix, and leaves the rest of a and b's cells past l*l as they were |
| Grid.Transform2d | src/swapspace.rs:118-123 | `fft2d`'s result: rows, transpose, rows, transpose; length l*l |
| Grid.Transform2dAt | src/swapspace.rs:118-123 | separability: cell (r, c) of the 2D result is entry r of the transform of column c of the row-transformed grid |
| Scenarios.TransformFour | src/swapspace.rs:79-87 | over Gaussian integers, the transform of [1, 2, 3, 4] is [10, -2 + 2I, -2, -2 - 2I] |
| Scenarios.TransformOfFour | src/swapspace.rs:99-110 | a four-point transform is the butterflies of its even and odd halves, with twiddles tw(0, 4) and tw(2, 4) |
| Scenarios.CombinePair | src/swapspace.rs:99-110 | a level of step n/2 is one butterfly of its two inputs |
| Scenarios.Transform2dFour | src/swapspace.rs:118-123 | the 2 x 2 grid [1, 2; 3, 4] transforms to [10, -2; -4, 0] |
| Scenarios.FftToScenario | src/fft.rs:7-35 | `fft_to` on [1, 2, 3, 4] writes [10, -2 + 2I, -2, -2 - 2I] |
| Scenarios.Fft2dScenario | src/swapspace.rs:118-123 | `fft2d` on the pair ([1, 2, 3, 4], zeros) leaves [10, -2, -4, 0] in a |
| Scenarios.TransposedTwo | src/swapspace.rs:173-188 | a 2 x 2 grid [a, b, c, d] transposes to [a, c, b, d] |
| Scenarios.TransposeScenario | src/swapspace.rs:173-188 | the `transpose` test: a = [0, 1, 2, 3] with b a copy; after `transpose`, a is [0, 2, 1, 3] |

## Left out

- Floating point. `Complex<T>` and its `+`, `-` and `*` are abstract operations. Rounding is not modelled, and neither is the precision of `T::from(i).unwrap() / T::from(n).unwrap()` or of the f32 `PI` (src/fft.rs:26).
- The twiddle `exp(-pi * I * i / n)` is the abstract `tw(i, n)`. The model does not prove that `Transform` is the discrete Fourier transform, or that it is linear. It proves that the code computes the recursive definition `Combine`. The Gaussian-integer scenarios give exact values for n <= 4.
- `(self.a.len() as f64).sqrt() as usize` (src/swapspace.rs:129 and 140): `transpose`, `row_fft` and `fft2d` take l as a parameter with l*l <= len instead. The rounding of a float square root for huge lengths is not modelled.
- `integer_sqrt` (src/swapspace.rs:148-166) is commented out in the source and is not modelled.
- The `assert!`s (src/swapspace.rs:81 and src/fft.rs:8-9) become preconditions: the slices are equally long and the length is a power of two (for `fft_to`, literally n == NextPow2(n), which NextPow2Fixed shows is the same condition). A panic is not modelled as an outcome.
- The borrow checker's guarantee that the two slices do not overlap is the precondition x != y (or inputs != outputs). Lifetimes are not modelled.
- The model does not capture usize overflow of `step * 2`, `i + step` or `i*l`. These stay far below usize::MAX for any length that fits in memory.
- SwapSpace.Pass: an iteration whose reads or writes would fall outside the buffers leaves a unchanged. In the source that would be an out-of-bounds panic. IterationBounds shows that the loop never reaches such an iteration.
- src/ocean_generator.rs (the Phillips spectrum `h0` and `ph`) is floating-point physics and is not part of this model.
- src/main.rs calls `fft::fft2d_inplace`, which src/fft.rs does not define. main.rs is not part of this model.
- SwapSpace.SwapSlices.FftInner: the model covers the calls `fft` makes, with n and step powers of two and the view starting less than step cells into the transform. `fft_inner` is public through the `FFT` trait (src/swapspace.rs:73-76), and a direct call with step 0 and n >= 1 recurses without end (src/swapspace.rs:94 and 99); such calls are not modelled.
- Fft.FftInner: the same restriction as SwapSpace.SwapSlices.FftInner; the nested function is only reachable through `fft_to`, which calls it with step 1 and a power-of-two n.
- SwapSpace.SwapSlices.constructor: requires the two arrays to be equally long, while `from_ab` (src/swapspace.rs:28-33) accepts slices of any lengths. `fft` on unequal slices would panic in `clone_from_slice` (src/swapspace.rs:85), and a panic is not modelled.
- `Swap<T>` for values other than slices (`test_swap` on integers and references) is modelled by the generic `SwapSpace.Swap` datatype. The reference case `(&y, &x)` is not modelled separately.
