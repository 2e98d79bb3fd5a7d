/** The row-cyclic share splitter: the pixel loop of
    ImageSecretSharing.split_image in package.py. Row r of the secret is
    copied into share r % n_shares; everything else in every share stays
    black. */
module Sharing {
  import opened Pixels

  /** A black row of the given width. */
  function BlackRow(width: nat): (row: seq<Pixel>)
    ensures |row| == width && forall c :: 0 <= c < width ==> row[c] == Black
  {
    seq(width, _ => Black)
  }

  /** Share t of n: the secret's rows r with r % n == t, black rows elsewhere. */
  function Share(secret: Grid, n: nat, t: nat): (share: Grid)
    requires n > 0
  {
    seq(|secret|, r requires 0 <= r < |secret| =>
      if r % n == t then secret[r] else BlackRow(|secret[r]|))
  }

  /** All n shares of the secret. */
  function Split(secret: Grid, n: nat): (shares: seq<Grid>)
    requires n > 0
  {
    seq(n, t requires 0 <= t < n => Share(secret, n, t))
  }

  /** Reads every row back from the share it was sent to. */
  function Merge(shares: seq<Grid>, height: nat): (secret: Grid)
    requires |shares| > 0
    requires forall t :: 0 <= t < |shares| ==> height <= |shares[t]|
  {
    seq(height, r requires 0 <= r < height => shares[r % |shares|][r])
  }

  /** The split is a partition of the rows: every share has the secret's
      shape, a row is held verbatim by the share r % n it is sent to, every
      other share is black there, and merging gives back the secret. */
  lemma SplitPartitionsRows(secret: Grid, n: nat)
    requires n > 0
    ensures |Split(secret, n)| == n
    ensures forall t :: 0 <= t < n ==> |Split(secret, n)[t]| == |secret|
    ensures forall t, r :: 0 <= t < n && 0 <= r < |secret| ==>
              |Split(secret, n)[t][r]| == |secret[r]|
    ensures forall r :: 0 <= r < |secret| ==> Split(secret, n)[r % n][r] == secret[r]
    ensures forall t, r :: 0 <= t < n && 0 <= r < |secret| && t != r % n ==>
              Split(secret, n)[t][r] == BlackRow(|secret[r]|)
    ensures Merge(Split(secret, n), |secret|) == secret
  {
  }

  /** With one share the share is the secret. */
  lemma SplitIntoOne(secret: Grid)
    ensures Split(secret, 1) == [secret]
  {
    var share := Split(secret, 1)[0];
    forall r | 0 <= r < |secret| ensures share[r] == secret[r] {
      assert r % 1 == 0;
    }
    assert share == secret;
  }

  /** An eight-row secret split four ways: share t holds rows t and t + 4
      and is black on its six other rows. */
  lemma EightRowsFourShares(secret: Grid, t: nat)
    requires |secret| == 8 && t < 4
    ensures forall r :: 0 <= r < 8 && (r == t || r == t + 4) ==> Split(secret, 4)[t][r] == secret[r]
    ensures forall r :: 0 <= r < 8 && r != t && r != t + 4 ==>
              Split(secret, 4)[t][r] == BlackRow(|secret[r]|)
  {
  }

  /** The share list of split_image: count distinct new images of the
      given size, every pixel black. */
  method BlankImages(count: nat, height: nat, width: nat) returns (images: seq<array2<Pixel>>)
    ensures |images| == count
    ensures forall t :: 0 <= t < count ==>
              fresh(images[t]) && images[t].Length0 == height && images[t].Length1 == width
    ensures forall t, u :: 0 <= t < u < count ==> images[t] != images[u]
    ensures forall t, row, col :: 0 <= t < count && 0 <= row < height && 0 <= col < width ==>
              images[t][row, col] == Black
  {
    images := [];
    while |images| < count
      invariant |images| <= count
      invariant forall t :: 0 <= t < |images| ==>
                  fresh(images[t]) && images[t].Length0 == height && images[t].Length1 == width
      invariant forall t, u :: 0 <= t < u < |images| ==> images[t] != images[u]
      invariant forall t, row, col :: 0 <= t < |images| && 0 <= row < height && 0 <= col < width ==>
                  images[t][row, col] == Black
    {
      var image := new Pixel[height, width]((_, _) => Black);
      images := images + [image];
    }
  }

  /** A share image holding, cell by cell, what share t of n holds is that
      share as a grid. */
  lemma ShareRows(share: array2<Pixel>, secret: array2<Pixel>, n: nat, t: nat)
    requires n > 0 && t < n
    requires share.Length0 == secret.Length0 && share.Length1 == secret.Length1
    requires forall row, col :: 0 <= row < secret.Length0 && 0 <= col < secret.Length1 ==>
               share[row, col] == if row % n == t then secret[row, col] else Black
    ensures Rows(share) == Split(Rows(secret), n)[t]
  {
    var expected := Split(Rows(secret), n)[t];
    assert expected == Share(Rows(secret), n, t);
    forall row | 0 <= row < secret.Length0 ensures Rows(share)[row] == expected[row] {
    }
  }

  class ImageSecretSharing {
    /** Stored by the constructor; no operation reads it. */
    const threshold: int
    const nShares: int

    constructor (threshold: int := 3, nShares: int := 4)
      ensures this.threshold == threshold && this.nShares == nShares
    {
      this.threshold := threshold;
      this.nShares := nShares;
    }

    /** split_image on an already decoded secret: n_shares black images of
        the secret's size, then secret[row, col] is put into share
        row % n_shares. With no shares (n_shares <= 0) the first pixel
        raises: ZeroDivisionError for 0, IndexError for a negative count. */
    method SplitImage(secret: array2<Pixel>) returns (r: Result<seq<array2<Pixel>>>)
      ensures r.Err? <==> nShares <= 0 && secret.Length0 > 0 && secret.Length1 > 0
      ensures r.Err? ==> r.error == if nShares == 0 then ZeroDivisionError else IndexError
      ensures r.Ok? ==> |r.value| == if nShares < 0 then 0 else nShares
      ensures r.Ok? ==> forall t :: 0 <= t < |r.value| ==>
                && fresh(r.value[t])
                && r.value[t].Length0 == secret.Length0 && r.value[t].Length1 == secret.Length1
      ensures r.Ok? ==> forall t, u :: 0 <= t < u < |r.value| ==> r.value[t] != r.value[u]
      ensures r.Ok? && nShares > 0 ==>
                forall t, row, col :: 0 <= t < nShares && 0 <= row < secret.Length0 && 0 <= col < secret.Length1 ==>
                  r.value[t][row, col] == if row % nShares == t then secret[row, col] else Black
      ensures r.Ok? && nShares > 0 ==>
                forall t :: 0 <= t < nShares ==> Rows(r.value[t]) == Split(Rows(secret), nShares)[t]
      ensures r.Ok? && nShares == 1 ==> Rows(r.value[0]) == Rows(secret)
    {
      var height, width := secret.Length0, secret.Length1;
      var shares := BlankImages(if nShares < 0 then 0 else nShares, height, width);
      if nShares <= 0 {
        if height > 0 && width > 0 {
          return Err(if nShares == 0 then ZeroDivisionError else IndexError);
        }
        return Ok(shares);
      }
      for row := 0 to height
        invariant forall t, rr, c {:trigger shares[t][rr, c]} :: 0 <= t < nShares && 0 <= rr < height && 0 <= c < width ==>
                    shares[t][rr, c] == if rr < row && rr % nShares == t then secret[rr, c] else Black
      {
        for col := 0 to width
          invariant forall t, rr, c {:trigger shares[t][rr, c]} :: 0 <= t < nShares && 0 <= rr < height && 0 <= c < width && rr != row ==>
                      shares[t][rr, c] == if rr < row && rr % nShares == t then secret[rr, c] else Black
          invariant forall t, c {:trigger shares[t][row, c]} :: 0 <= t < nShares && 0 <= c < width ==>
                      shares[t][row, c] == if c < col && row % nShares == t then secret[row, c] else Black
        {
          var pixel := secret[row, col];
          shares[row % nShares][row, col] := pixel;
        }
      }
      r := Ok(shares);
      forall t | 0 <= t < nShares ensures Rows(shares[t]) == Split(Rows(secret), nShares)[t] {
        ShareRows(shares[t], secret, nShares, t);
      }
      if nShares == 1 {
        SplitIntoOne(Rows(secret));
      }
    }
  }
}
