/** The pixel-position permutation cipher: ImageEncryptionDecryption in
    package.py. encrypt draws a key, a permutation of the linear pixel
    indices, keeps it in the permutation_order field and moves the pixel at
    row-major index k to index key[k]; decrypt moves the pixel at index m to
    argsort(key)[m]. */
module Cipher {
  import opened Pixels
  import opened Permutations

  /** Every index the loop over an n-pixel grid looks up exists in order
      and, turned back into (row, column), lies inside the grid. When this
      fails the loop raises IndexError. */
  predicate MovesWithin(order: seq<int>, n: nat) {
    n <= |order| && forall k :: 0 <= k < n ==> 0 <= order[k] < n
  }

  /** np.copy(image) followed by the nested loop shared by encrypt and
      decrypt: the pixel at (i, j), row-major index k = i * width + j,
      is written to divmod(order[k], width). */
  method MovePixels(image: array2<Pixel>, order: seq<int>) returns (moved: array2<Pixel>)
    requires |order| == image.Length0 * image.Length1 && IsPermutation(order)
    ensures fresh(moved)
    ensures moved.Length0 == image.Length0 && moved.Length1 == image.Length1
    ensures Cells(moved) == Scatter(Cells(image), order)
  {
    var height, width := image.Length0, image.Length1;
    moved := new Pixel[height, width]((i, j) reads image =>
      if 0 <= i < height && 0 <= j < width then image[i, j] else Black);
    for i := 0 to height
      invariant i * width <= height * width
      invariant forall m :: 0 <= m < i * width ==> At(moved, order[m]) == At(image, m)
    {
      MulMonotonic(i + 1, height, width);
      assert (i + 1) * width == i * width + width;
      for j := 0 to width
        invariant i * width + j <= height * width
        invariant forall m :: 0 <= m < i * width + j ==> At(moved, order[m]) == At(image, m)
      {
        var originalIndex := i * width + j;
        LinearInGrid(i, j, height, width);
        LinearDivMod(i, j, width);
        var newIndex := order[originalIndex];
        DivModInGrid(newIndex, height, width);
        var newI, newJ := newIndex / width, newIndex % width;
        label Before:
        moved[newI, newJ] := image[i, j];
        forall m | 0 <= m < originalIndex + 1
          ensures At(moved, order[m]) == At(image, m)
        {
          if m < originalIndex {
            DivModInjective(order[m], newIndex, width);
            assert old@Before(At(moved, order[m])) == At(image, m);
          }
        }
      }
    }
    forall m | 0 <= m < height * width
      ensures Cells(moved)[order[m]] == Cells(image)[m]
    {
    }
    ScatterUnique(Cells(image), order, Cells(moved));
  }

  class ImageEncryptionDecryption {
    /** The key of the most recent encrypt; empty before the first one. */
    var permutationOrder: seq<int>

    ghost predicate Valid()
      reads this
    {
      IsPermutation(permutationOrder)
    }

    constructor ()
      ensures Valid() && permutationOrder == []
    {
      permutationOrder := [];
    }

    /** encrypt, with the random permutation np.random.permutation(width *
        height) passed in as key. The key replaces the stored one. */
    method Encrypt(image: array2<Pixel>, key: seq<int>) returns (encrypted: array2<Pixel>)
      requires |key| == image.Length0 * image.Length1 && IsPermutation(key)
      modifies this
      ensures Valid() && permutationOrder == key
      ensures fresh(encrypted)
      ensures encrypted.Length0 == image.Length0 && encrypted.Length1 == image.Length1
      ensures forall k :: 0 <= k < |key| ==> At(encrypted, key[k]) == At(image, k)
      ensures Cells(encrypted) == Scatter(Cells(image), key)
      ensures multiset(Cells(encrypted)) == multiset(Cells(image))
    {
      permutationOrder := key;
      encrypted := MovePixels(image, permutationOrder);
      ScatterMultiset(Cells(image), key);
    }

    /** decrypt: the stored key is read, never written. The loop raises
        IndexError when the grid has more pixels than the key, or when the
        key is longer and its inverse sends some pixel of the smaller grid
        outside it. */
    method Decrypt(encrypted: array2<Pixel>) returns (r: Result<array2<Pixel>>)
      requires Valid()
      ensures r.Ok? <==> MovesWithin(ArgSort(permutationOrder), encrypted.Length0 * encrypted.Length1)
      ensures r.Err? ==> r.error == IndexError
      ensures |permutationOrder| == encrypted.Length0 * encrypted.Length1 ==> r.Ok?
      ensures r.Ok? ==>
                && fresh(r.value)
                && r.value.Length0 == encrypted.Length0 && r.value.Length1 == encrypted.Length1
                && IsPermutation(ArgSort(permutationOrder)[..encrypted.Length0 * encrypted.Length1])
                && Cells(r.value)
                   == Scatter(Cells(encrypted), ArgSort(permutationOrder)[..encrypted.Length0 * encrypted.Length1])
      ensures r.Ok? && |permutationOrder| == encrypted.Length0 * encrypted.Length1 ==>
                Cells(r.value) == Scatter(Cells(encrypted), ArgSort(permutationOrder))
    {
      var n := encrypted.Length0 * encrypted.Length1;
      var reversePermutationOrder := ArgSort(permutationOrder);
      if !MovesWithin(reversePermutationOrder, n) {
        return Err(IndexError);
      }
      var used := reversePermutationOrder[..n];
      assert IsPermutation(used);
      var decrypted := MovePixels(encrypted, used);
      r := Ok(decrypted);
    }
  }

  /** The way the front end uses its one cipher: encrypt an image, then
      decrypt the result with the key the cipher kept. Whatever key the
      cipher held before, the image comes back pixel for pixel. */
  method EncryptThenDecrypt(cipher: ImageEncryptionDecryption, image: array2<Pixel>, key: seq<int>)
    returns (restored: Result<array2<Pixel>>)
    requires cipher.Valid()
    requires |key| == image.Length0 * image.Length1 && IsPermutation(key)
    modifies cipher
    ensures cipher.Valid() && cipher.permutationOrder == key
    ensures restored.Ok?
    ensures restored.value.Length0 == image.Length0 && restored.value.Length1 == image.Length1
    ensures forall i, j :: 0 <= i < image.Length0 && 0 <= j < image.Length1 ==>
              restored.value[i, j] == image[i, j]
  {
    var encrypted := cipher.Encrypt(image, key);
    restored := cipher.Decrypt(encrypted);
    ScatterRoundTrip(Cells(image), key);
    SameCells(restored.value, image);
  }

  /** The 2 x 2 example: pixels [a, b, c, d] under key [3, 1, 0, 2] become
      [c, b, d, a]; the argsort of the key is [2, 1, 3, 0] and scattering
      by it restores [a, b, c, d]. */
  lemma TwoByTwoExample(a: Pixel, b: Pixel, c: Pixel, d: Pixel)
    ensures IsPermutation([3, 1, 0, 2])
    ensures ArgSort([3, 1, 0, 2]) == [2, 1, 3, 0]
    ensures Scatter([a, b, c, d], [3, 1, 0, 2]) == [c, b, d, a]
    ensures Scatter([c, b, d, a], [2, 1, 3, 0]) == [a, b, c, d]
  {
    var p := [3, 1, 0, 2];
    var q := ArgSort(p);
    assert q[p[0]] == 0 && q[p[1]] == 1 && q[p[2]] == 2 && q[p[3]] == 3;
    assert q == [2, 1, 3, 0];
    ScatterRoundTrip([a, b, c, d], p);
  }
}
