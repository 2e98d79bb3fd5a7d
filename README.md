# Image permutation cipher and row-cyclic share splitter, in Dafny

This project models the two in-memory pixel-grid transforms of `package.py`:

- `ImageEncryptionDecryption`, a permutation cipher. `encrypt` keeps a key
  `permutation_order`, a permutation of the row-major pixel indices
  `0 .. width*height-1`. It copies the image and moves the pixel at index
  `k = i*width + j` to `divmod(P[k], width)`. `decrypt` computes
  `argsort(P)` and moves the pixel at index `m` to `argsort(P)[m]`.
- The pixel loop of `ImageSecretSharing.split_image`. It creates `n_shares`
  black images the size of the secret and copies pixel `(row, col)` into
  share `row % n_shares`.

Files:

- `pixels.dfy` (module `Pixels`): `Byte`, `Pixel`, `Black`, the `Result`
  and `Error` types, and the row-major index arithmetic (`divmod` stays in
  the grid and undoes `i*width + j`). A grid is an `array2<Pixel>` indexed
  `[row, col]`. `Cells` reads it as a row-major sequence and `Rows` as a
  sequence of rows.
- `permutations.dfy` (module `Permutations`): permutations, `ArgSort` (the
  inverse permutation), `Scatter` (the element at position `k` moves to
  position `p[k]`), and the lemmas about them: round trips, multiset
  preservation and pigeonhole.
- `cipher.dfy` (module `Cipher`): class `ImageEncryptionDecryption`, with
  the key as a field that `Encrypt` writes and `Decrypt` only reads.
  `MovePixels` is the copy-then-move loop that both methods run. The class
  invariant `Valid()` says the stored key is a permutation.
- `sharing.dfy` (module `Sharing`): the value-level split (`Share`, `Split`)
  with its inverse `Merge`. Class `ImageSecretSharing` has `SplitImage`,
  which fills freshly allocated share arrays in nested loops.

`package.py` defines no error types of its own. The model follows what the
code raises:

- `decrypt` fails only with numpy's `IndexError`. This happens when the grid
  has more pixels than the key (always the case before the first `encrypt`,
  because the key is then empty). It also happens when the key is longer
  than the grid and `argsort(P)` sends one of the grid's first indices
  outside it.
- A key over more pixels whose inverse happens to stay inside the smaller
  grid is accepted and rearranges that grid.
- An empty grid is decrypted without error even when no key is held.
- Zero-sized grids are accepted by both operations.
- `split_image` with `n_shares <= 0` on a non-empty image fails:
  `ZeroDivisionError` for 0, `IndexError` for a negative count. On an empty
  image it returns no shares.

## Model

| member | source | states |
|---|---|---|
| `Cipher.ImageEncryptionDecryption.constructor` | package.py:11-12 | a new cipher holds the empty key, which satisfies the class invariant |
| `Cipher.ImageEncryptionDecryption.Encrypt` | package.py:14-29 | the key replaces the stored one; the result is a new grid of the same height and width; the pixel at index k lands at index key[k]; its cells are Scatter of the input's cells by the key, so it holds the same multiset of pixels |
| `Cipher.ImageEncryptionDecryption.Decrypt` | package.py:31-46 | the key is only read (no modifies clause); it fails with IndexError exactly when argsort(key) does not fit the grid, and never when the key length equals the pixel count; otherwise the result is a new grid of the same size whose cells are Scatter of the input's cells by argsort(key) cut to the pixel count |
| `Cipher.MovePixels` | package.py:22-27 | np.copy and the nested loop: for a permutation order of the grid's pixel count, the new grid of the same shape is exactly Scatter(cells, order) (the loop invariants prove earlier writes survive) |
| `Cipher.EncryptThenDecrypt` | package.py:14-46 | on any valid cipher (whatever key it held), encrypting with a permutation key and then decrypting on the same cipher succeeds and gives back the image pixel for pixel, with the same dimensions; the cipher keeps the new key |
| `Cipher.TwoByTwoExample` | package.py:20-27 | 2x2 pixels [a,b,c,d] under key [3,1,0,2] become [c,b,d,a]; argsort of the key is [2,1,3,0], which restores [a,b,c,d] |
| `Permutations.ArgSort` | package.py:37 | argsort of a permutation is a permutation that lists positions in increasing order of their values, with q[p[k]] == k and p[q[m]] == m |
| `Permutations.IndexOf` | package.py:37 | the position returned holds m, and m does not occur before it |
| `Permutations.PermutationCovers` | package.py:20 | pigeonhole: a key that is a permutation reaches every index 0 .. n-1, so every output cell is a target |
| `Permutations.Scatter` | package.py:22-27 | the rearrangement keeps the length and puts s[k] at position p[k] for every k |
| `Permutations.ScatterUnique` | package.py:22-27 | any sequence that has s[k] at p[k] for every k is Scatter(s, p): the loop's result is determined |
| `Permutations.ScatterRoundTrip` | package.py:14-46 | scattering by argsort(p) undoes scattering by p (decrypt after encrypt) |
| `Permutations.ScatterRoundTripInverse` | package.py:14-46 | scattering by p undoes scattering by argsort(p) (encrypt after decrypt) |
| `Permutations.ArgSortInvolutive` | package.py:37 | argsort of argsort(p) is p |
| `Permutations.GatherMultiset` | package.py:22-27 | reading a sequence through a permutation keeps its multiset of elements |
| `Permutations.ScatterMultiset` | package.py:22-27 | scattering by a permutation keeps the multiset of pixels |
| `Pixels.DivModInGrid` | package.py:26 | for 0 <= k < height*width, divmod(k, width) is a cell inside the grid |
| `Pixels.LinearDivMod` | package.py:24-26 | divmod(i*width + j, width) == (i, j) for 0 <= j < width |
| `Pixels.DivModInjective` | package.py:26 | distinct linear indices give distinct cells |
| `Pixels.LinearInGrid` | package.py:22-24 | the row-major index of a cell inside the grid is below height*width |
| `Pixels.SameCells` | package.py:22-27 | two grids of one shape agree cell by cell exactly when their row-major sequences are equal |
| `Sharing.BlankImages` | package.py:56 | count distinct new images of the secret's size, all black |
| `Sharing.ImageSecretSharing.constructor` | package.py:49-51 | the sharer keeps the threshold and share count it is given, by default 3 and 4, in that positional order |
| `Sharing.ImageSecretSharing.SplitImage` | package.py:53-65 | fails exactly when n_shares <= 0 on a non-empty image (ZeroDivisionError for 0, IndexError below); otherwise returns max(n_shares, 0) distinct new grids of the secret's size; share t at (row, col) holds the secret pixel when row % n_shares == t and black otherwise; each share equals Split of the secret's rows; with one share the share equals the secret |
| `Sharing.ShareRows` | package.py:60-63 | a grid that holds, cell by cell, what share t holds equals that share as rows |
| `Sharing.SplitPartitionsRows` | package.py:56-63 | there are n shares of the secret's shape; row r is held verbatim by share r % n and is black in every other share; Merge of the shares gives back the secret, so the split loses nothing |
| `Sharing.SplitIntoOne` | package.py:56-63 | with one share the only share is the secret |
| `Sharing.EightRowsFourShares` | package.py:56-63 | an 8-row secret split four ways: share t holds rows t and t+4 and is black on the other six |

## Left out

- Random key generation (`np.random.permutation`, package.py:20). `Encrypt` takes the key as a parameter and requires it to be a permutation of the pixel count.
- Exceptions are modelled as a check made before the loop. Python raises halfway through the loop, but the partly written copy is thrown away, so what the caller sees is the same.
- File and image I/O: `Image.open`, `convert('RGB')`, `Image.fromarray`, `save`, and PIL's `getpixel` and `putpixel`. Images are `array2<Pixel>` values that are passed in and returned.
- Grayscale-to-RGB stacking (package.py:127-128). Every pixel is already an RGB triple of bytes, and numpy dtypes other than 8-bit channels are not modelled.
- `threshold` (package.py:50) is stored by the constructor, but no operation reads it, because no algorithm in package.py does.
- `polynomial_interpolation`, `interpolate_pixel`, `interpolate_share` and `combine_shares` (package.py:67-109). They are floating-point least-squares fits with `int()` truncation, not exact arithmetic.
- The tkinter window, its callbacks and its module-level instances (package.py:111-256).
- Sharing of one cipher between threads. Everything here is sequential.
