/** The on-disk frame window `Frame_minus_<k>.npy`, modelled as a map from offset k to
    a grey-scale frame. A missing key is a file that does not exist. */
module FrameWindow {

  datatype Option<T> = None | Some(value: T)

  /** One `uint8` pixel. */
  type Pixel = x: int | 0 <= x < 256

  /** A frame, flattened row by row. */
  type Frame = seq<Pixel>

  type Window = map<int, Frame>

  /** Every stored offset is a real window slot. */
  predicate Offsets(w: Window)
  {
    forall k :: k in w ==> k >= 0
  }

  // ringbuffer_cycle

  function Min(a: int, b: int): int { if a < b then a else b }

  /** One past the last offset the cycle fills: with `pfs > 0` the loop copies into
      offset `i - 1` for every `i` with `i <= last` and `pfs - i + 1 >= 0`. */
  function CopyBound(pfs: int, last: int): (n: int)
    ensures pfs == 0 ==> n == 0
    ensures pfs != 0 ==> n <= last && n <= pfs + 1 && (n == last || n == pfs + 1)
  {
    if pfs == 0 then 0 else Min(last, pfs + 1)
  }

  /** The offsets `lo <= k < n` copied from offset `k - 1`, which must exist. */
  function Written(w: Window, lo: int, n: int): (ks: set<int>)
    ensures forall k :: k in ks <==> lo <= k < n && k - 1 in w
  {
    var ks := set j | j in w && lo <= j + 1 < n :: j + 1;
    assert forall k :: lo <= k < n && k - 1 in w ==> k in ks by {
      forall k | lo <= k < n && k - 1 in w ensures k in ks {
        var j := k - 1;
        assert j in w && j + 1 == k;
      }
    }
    ks
  }

  /** `w` after copying offset k-1 to k for the offsets in `Written(w, lo, n)`.
      The copies run from high offsets to low, so each reads an untouched slot. */
  function Shifted(w: Window, lo: int, n: int): Window
  {
    map k | k in w.Keys + Written(w, lo, n) :: if k in Written(w, lo, n) then w[k - 1] else w[k]
  }

  /** Copying only ever writes to offsets above an existing one. */
  lemma ShiftedOffsets(w: Window, lo: int, n: int)
    requires Offsets(w)
    ensures Offsets(Shifted(w, lo, n))
  {
  }

  /** The window after `ringbuffer_cycle(img)`. */
  function CycleWindow(w: Window, img: Frame, pfs: int, last: int): Window
  {
    Shifted(w[0 := img], 1, CopyBound(pfs, last))
  }

  /** Nothing is copied when the range is empty or lies below offset 1. */
  lemma ShiftedNone(w: Window, lo: int, n: int)
    requires Offsets(w) && (n <= lo || n <= 1)
    ensures Shifted(w, lo, n) == w
  {
    assert Written(w, lo, n) == {};
  }

  /** Below offset 1 nothing is copied, because offset -1 and lower are never stored. */
  lemma ShiftedBelowOne(w: Window, lo: int, n: int)
    requires Offsets(w) && lo <= 1
    ensures Shifted(w, lo, n) == Shifted(w, 1, n)
  {
    assert Written(w, lo, n) == Written(w, 1, n);
  }

  /** One iteration `i` of the copy loop: it extends the copied range down to `i - 1`
      when `i - 1` is below the bound and offset `i - 2` exists. */
  lemma ShiftedStep(w: Window, i: int, n: int)
    ensures (i - 2 in Shifted(w, i, n)) == (i - 2 in w)
    ensures i - 2 in w ==> Shifted(w, i, n)[i - 2] == w[i - 2]
    ensures Shifted(w, i - 1, n) ==
      if i <= n && i - 2 in w then Shifted(w, i, n)[i - 1 := w[i - 2]] else Shifted(w, i, n)
  {
    if i <= n && i - 2 in w {
      assert Written(w, i - 1, n) == Written(w, i, n) + {i - 1};
    } else {
      assert Written(w, i - 1, n) == Written(w, i, n);
    }
  }

  /** The copy loop's step, stated on the current window `v`. */
  lemma ShiftedStepFrom(w: Window, v: Window, i: int, n: int)
    requires v == Shifted(w, i, n)
    ensures (if i <= n && i - 2 in v then v[i - 1 := v[i - 2]] else v) == Shifted(w, i - 1, n)
  {
    ShiftedStep(w, i, n);
  }

  /** What the cycle promises: offset 0 is `img`; with `pfs > 0` offset 1 is `img` too;
      every copied offset holds its predecessor's old frame; all other offsets keep
      their old frame (or stay absent); with `pfs == 0` only offset 0 changes. */
  lemma CycleFacts(w: Window, img: Frame, pfs: int, last: int)
    requires Offsets(w)
    ensures var r := CycleWindow(w, img, pfs, last);
      && Offsets(r)
      && 0 in r && r[0] == img
      && (pfs > 0 && last >= 2 ==> 1 in r && r[1] == img)
      && (forall k :: 2 <= k < CopyBound(pfs, last) && k - 1 in w ==> k in r && r[k] == w[k - 1])
      && (forall k :: k != 0 && !(1 <= k < CopyBound(pfs, last) && (k == 1 || k - 1 in w)) ==>
            (k in r <==> k in w) && (k in w ==> r[k] == w[k]))
      && (pfs == 0 ==> r == w[0 := img])
  {
    var w0 := w[0 := img];
    var n := CopyBound(pfs, last);
    var r := CycleWindow(w, img, pfs, last);
    ShiftedOffsets(w0, 1, n);
    var ks := Written(w0, 1, n);
    forall k ensures k in ks <==> 1 <= k < n && (k == 1 || k - 1 in w) {
      assert k - 1 in w0 <==> k == 1 || k - 1 in w;
    }
    if pfs > 0 && last >= 2 {
      assert 1 in ks;
    }
    if pfs == 0 {
      ShiftedNone(w0, 1, n);
    }
  }

  /** The copy loop of `ringbuffer_cycle`: for i = last down to 1, copy offset i-2 to
      i-1 when pfs > 0, pfs - i + 1 >= 0 and offset i-2 exists. */
  method CopyDown(w0: Window, pfs: int, last: int) returns (w: Window)
    requires Offsets(w0)
    ensures w == Shifted(w0, 1, CopyBound(pfs, last))
  {
    ghost var n := CopyBound(pfs, last);
    w := w0;
    var i := last;
    if last <= 1 {
      ShiftedBelowOne(w0, last, n);
    }
    ShiftedNone(w0, if last <= 1 then 1 else last, n);
    while i > 0
      invariant i <= last
      invariant w == Shifted(w0, i, n)
      decreases i
    {
      ShiftedStepFrom(w0, w, i, n);
      if pfs == 0 {
        assert n == 0;
      } else if pfs - i + 1 >= 0 {
        assert i <= n;
        if i - 2 in w {
          w := w[i - 1 := w[i - 2]];
        }
      } else {
        assert n < i;
      }
      i := i - 1;
    }
    ShiftedBelowOne(w0, i, n);
  }

  // ringbuffer_process

  /** `np.add` on two `uint8` frames of the same shape: wrap-around addition. */
  function AddFrames(a: Frame, b: Frame): (c: Frame)
    requires |a| == |b|
    ensures |c| == |a|
    ensures forall k :: 0 <= k < |c| ==> c[k] == (a[k] as int + b[k] as int) % 256
  {
    seq(|a|, k requires 0 <= k < |a| => (a[k] as int + b[k] as int) % 256)
  }

  /** The uncaught exceptions of the accumulation loop. */
  datatype WindowError = Missing(offset: int) | ShapeMismatch

  /** The frame last saved to offset 0, and the exception that stopped the loop, if any. */
  datatype Accumulation = Accumulation(sum: Frame, error: Option<WindowError>)

  /** The loop `for i in range(last, 1, -1)` started at `i` with running sum `acc`.
      At `i == 2` it re-reads offset 0, which holds the running sum itself. */
  function Accum(w: Window, i: int, acc: Frame): (r: Accumulation)
    ensures |r.sum| == |acc|
    decreases i
  {
    if i < 2 then Accumulation(acc, None)
    else if i == 2 then Accumulation(AddFrames(acc, acc), None)
    else if i - 2 !in w then Accumulation(acc, Some(Missing(i - 2)))
    else if |w[i - 2]| != |acc| then Accumulation(acc, Some(ShapeMismatch))
    else Accum(w, i - 1, AddFrames(w[i - 2], acc))
  }

  /** Offsets 1..hi all exist and have `n` pixels. */
  predicate Complete(w: Window, hi: int, n: int)
  {
    forall j :: 1 <= j <= hi ==> j in w && |w[j]| == n
  }

  /** Pixel `k` summed over offsets 1..hi, without wrap-around. */
  function ColumnSum(w: Window, hi: int, k: int): (s: int)
    requires 0 <= k && forall j :: 1 <= j <= hi ==> j in w && k < |w[j]|
    ensures s >= 0
    decreases hi
  {
    if hi < 1 then 0 else ColumnSum(w, hi - 1, k) + w[hi][k]
  }

  lemma DoubleMod(a: int, b: int, c: int)
    ensures (2 * ((a + b) % 256 + c)) % 256 == (2 * (a + b + c)) % 256
  {
    var q, r := (a + b) / 256, (a + b) % 256;
    assert a + b == 256 * q + r;
    var lhs := 2 * (r + c);
    assert 2 * (a + b + c) == lhs + 256 * (2 * q);
    ModShift(lhs, 2 * q);
  }

  lemma ModShift(x: int, k: int)
    ensures (x + 256 * k) % 256 == x % 256
  {
    var q, r := x / 256, x % 256;
    assert x + 256 * k == 256 * (q + k) + r;
  }

  /** With every slot present and of the same shape, the loop from `i` ends without an
      exception and each pixel of the saved sum is twice (`acc` plus offsets 1..i-2),
      wrapped at 256: the last iteration adds the running sum to itself. */
  lemma {:induction false} AccumSum(w: Window, i: int, acc: Frame)
    requires i >= 2 && Complete(w, i - 2, |acc|)
    ensures Accum(w, i, acc).error == None
    ensures |Accum(w, i, acc).sum| == |acc|
    ensures forall k :: 0 <= k < |acc| ==>
      Accum(w, i, acc).sum[k] == (2 * (acc[k] + ColumnSum(w, i - 2, k))) % 256
    decreases i
  {
    if i > 2 {
      var next := AddFrames(w[i - 2], acc);
      assert Complete(w, i - 3, |next|);
      AccumSum(w, i - 1, next);
      forall k | 0 <= k < |acc|
        ensures Accum(w, i, acc).sum[k] == (2 * (acc[k] + ColumnSum(w, i - 2, k))) % 256
      {
        DoubleMod(w[i - 2][k], acc[k], ColumnSum(w, i - 3, k));
      }
    }
  }

  /** The loop raises exactly when some offset 1..i-2 is missing or differs in shape
      from the running sum; a missing-file error names an offset that is absent. */
  lemma {:induction false} AccumError(w: Window, i: int, acc: Frame)
    ensures Accum(w, i, acc).error.Some? <==> !Complete(w, i - 2, |acc|)
    ensures Accum(w, i, acc).error.Some? && Accum(w, i, acc).error.value.Missing? ==>
      1 <= Accum(w, i, acc).error.value.offset <= i - 2 && Accum(w, i, acc).error.value.offset !in w
    decreases i
  {
    if i > 2 && i - 2 in w && |w[i - 2]| == |acc| {
      var next := AddFrames(w[i - 2], acc);
      AccumError(w, i - 1, next);
      assert Complete(w, i - 2, |acc|) == Complete(w, i - 3, |next|);
    }
  }

  /** `bbb[bbb > 1] = 0` then `bbb[bbb == 1] = 255`: 255 exactly where the sum is 1. */
  function Mask(f: Frame): (m: Frame)
    ensures |m| == |f|
    ensures forall k :: 0 <= k < |m| ==> (m[k] == 255 <==> f[k] == 1) && (m[k] == 0 <==> f[k] != 1)
  {
    seq(|f|, k requires 0 <= k < |f| => if f[k] == 1 then 255 else 0)
  }

  /** `img[img > 0] = 255`. */
  function Brighten(f: Frame): (m: Frame)
    ensures |m| == |f|
    ensures forall k :: 0 <= k < |m| ==> (f[k] > 0 ==> m[k] == 255) && (f[k] == 0 ==> m[k] == 0)
  {
    seq(|f|, k requires 0 <= k < |f| => if f[k] > 0 then 255 else f[k])
  }

  /** A mask has only 0 and 255, so brightening leaves it as it is. */
  lemma BrightenMask(f: Frame)
    ensures Brighten(Mask(f)) == Mask(f)
  {
  }

  /** The accumulated sum is doubled, hence even, so no pixel equals 1 and the mask
      `ringbuffer_process` produces is entirely black. */
  lemma BlankMask(w: Window, last: int)
    requires last >= 2 && 0 in w
    requires Accum(w, last, w[0]).error == None
    ensures forall k :: 0 <= k < |w[0]| ==> Mask(Accum(w, last, w[0]).sum)[k] == 0
  {
    AccumError(w, last, w[0]);
    AccumSum(w, last, w[0]);
    var s := Accum(w, last, w[0]).sum;
    forall k | 0 <= k < |w[0]| ensures s[k] != 1 {
      var x := w[0][k] + ColumnSum(w, last - 2, k);
      assert s[k] == (2 * x) % 256;
      assert 2 * x == 256 * ((2 * x) / 256) + s[k];
    }
  }

  // In-place pixel assignments

  /** `bbb[bbb > 1] = 0; bbb[bbb == 1] = 255` on the loaded frame. */
  method MaskInPlace(a: array<Pixel>)
    modifies a
    ensures a[..] == Mask(old(a[..]))
  {
    for k := 0 to a.Length
      invariant forall j :: 0 <= j < k ==> a[j] == (if old(a[j]) > 1 then 0 else old(a[j]))
      invariant forall j :: k <= j < a.Length ==> a[j] == old(a[j])
    {
      if a[k] > 1 {
        a[k] := 0;
      }
    }
    for k := 0 to a.Length
      invariant forall j :: 0 <= j < k ==> a[j] == (if old(a[j]) == 1 then 255 else 0)
      invariant forall j :: k <= j < a.Length ==> a[j] == (if old(a[j]) > 1 then 0 else old(a[j]))
    {
      if a[k] == 1 {
        a[k] := 255;
      }
    }
  }

  /** `img[img > 0] = 255`. */
  method BrightenInPlace(a: array<Pixel>)
    modifies a
    ensures a[..] == Brighten(old(a[..]))
  {
    for k := 0 to a.Length
      invariant forall j :: 0 <= j < k ==> a[j] == (if old(a[j]) > 0 then 255 else old(a[j]))
      invariant forall j :: k <= j < a.Length ==> a[j] == old(a[j])
    {
      if a[k] > 0 {
        a[k] := 255;
      }
    }
  }
}
