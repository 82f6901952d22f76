/**
 * Staging for the animation: the selected frames are copied, in order, into a fresh
 * scratch directory under the names `img0000.png`, `img0001.png`, ..., each copy produced
 * by ffmpeg's drawtext filter burning the frame's escaped timestamp label into it.
 */
module Staging {
  import opened Prelude
  import opened Strings
  import opened Order
  import opened Frames
  import opened Labels

  /** Fewer selected frames than this and no animation is attempted. */
  const MinFrames: nat := 2

  /** The index as `String(i).padStart(4, '0')`. */
  function PaddedIndex(i: nat): string {
    PadStart(Decimal(i), 4, '0')
  }

  /** The name of the `i`-th staged frame. */
  function StagedName(i: nat): string {
    "img" + PaddedIndex(i) + PngSuffix
  }

  /** The padded index is a digit string that still denotes `i`. */
  lemma PaddedIndexValue(i: nat)
    ensures AllDigits(PaddedIndex(i)) && DigitsValue(PaddedIndex(i)) == i
  {
    var d := Decimal(i);
    DigitsValueOfDecimal(i);
    if |d| < 4 {
      var z := Repeat('0', 4 - |d|);
      assert PaddedIndex(i) == z + d;
      forall c | c in z ensures c == '0' {
        var k :| 0 <= k < |z| && z[k] == c;
      }
      DigitsValueLeadingZeros(z, d);
    }
  }

  /** Distinct indices are staged under distinct names. */
  lemma StagedNameInjective(i: nat, j: nat)
    requires i != j
    ensures StagedName(i) != StagedName(j)
  {
    var a, b := StagedName(i), StagedName(j);
    if |a| == |b| {
      assert a[3..|a| - 4] == PaddedIndex(i);
      assert b[3..|b| - 4] == PaddedIndex(j);
      PaddedIndexValue(i);
      PaddedIndexValue(j);
    }
  }

  /**
   * Below 10000 every staged name has the same length and the names sort in index order,
   * so the scratch directory lists in staging order.
   */
  lemma StagedNameOrder(i: nat, j: nat)
    requires i < j < 10000
    ensures |StagedName(i)| == |StagedName(j)| == 11
    ensures LexLess(StagedName(i), StagedName(j))
  {
    assert Pow10(4) == 10000;
    DecimalLength(i, 4);
    DecimalLength(j, 4);
    var p, q := PaddedIndex(i), PaddedIndex(j);
    PaddedIndexValue(i);
    PaddedIndexValue(j);
    LexLessDigits(p, q);
    assert StagedName(i) == "img" + (p + PngSuffix);
    assert StagedName(j) == "img" + (q + PngSuffix);
    LexLessCommonPrefix("img", p + PngSuffix, q + PngSuffix);
    LexLessEqualLength(p, q, PngSuffix, PngSuffix);
  }

  /** How staging ended. */
  datatype StageOutcome =
    | NotEnoughFrames
      // every frame was burned and copied; the scratch directory's contents
    | Staged(scratch: map<string, Bytes>)
      // ffmpeg failed on `frame`; what the scratch directory held at that point
    | BurnFailed(frame: string, scratch: map<string, Bytes>)

  /** What ffmpeg produces for frame `f`: its bytes with the escaped label burned in. */
  function BurnedFrame(f: string, folder: map<string, Bytes>,
                       burn: (string, Bytes) -> Option<Bytes>, format: nat -> string): Option<Bytes>
    requires f in folder
  {
    burn(EscapeLabel(Label(f, format)), folder[f])
  }

  /** Every listed frame is in the folder. */
  predicate InFolder(files: seq<string>, folder: map<string, Bytes>) {
    forall i :: 0 <= i < |files| ==> files[i] in folder
  }

  /** ffmpeg succeeds on each of the first `n` frames. */
  predicate BurnsSucceed(files: seq<string>, n: nat, folder: map<string, Bytes>,
                         burn: (string, Bytes) -> Option<Bytes>, format: nat -> string)
    requires n <= |files| && InFolder(files, folder)
  {
    forall i :: 0 <= i < n ==> BurnedFrame(files[i], folder, burn, format).Some?
  }

  /** The names of the first `n` staged frames. */
  function StagedNames(n: nat): set<string> {
    if n == 0 then {} else StagedNames(n - 1) + {StagedName(n - 1)}
  }

  /** The scratch directory once the first `n` frames are staged. */
  function StagedDir(files: seq<string>, n: nat, folder: map<string, Bytes>,
                     burn: (string, Bytes) -> Option<Bytes>, format: nat -> string): map<string, Bytes>
    requires n <= |files| && InFolder(files, folder)
    requires BurnsSucceed(files, n, folder, burn, format)
  {
    if n == 0 then map[]
    else StagedDir(files, n - 1, folder, burn, format)[StagedName(n - 1) := BurnedFrame(files[n - 1], folder, burn, format).value]
  }

  lemma StagedDirStep(files: seq<string>, n: nat, folder: map<string, Bytes>,
                      burn: (string, Bytes) -> Option<Bytes>, format: nat -> string, v: Bytes)
    requires n < |files| && InFolder(files, folder)
    requires BurnsSucceed(files, n, folder, burn, format)
    requires BurnedFrame(files[n], folder, burn, format) == Some(v)
    ensures BurnsSucceed(files, n + 1, folder, burn, format)
    ensures StagedDir(files, n + 1, folder, burn, format) == StagedDir(files, n, folder, burn, format)[StagedName(n) := v]
  {
  }

  /** A name staged at index `m` or later is not among the first `n`. */
  lemma {:induction false} StagedNameAbsent(n: nat, m: nat)
    requires n <= m
    ensures StagedName(m) !in StagedNames(n)
  {
    if n > 0 {
      StagedNameAbsent(n - 1, m);
      StagedNameInjective(n - 1, m);
    }
  }

  /** The first `n` staged names are `n` distinct names. */
  lemma {:induction false} StagedNamesExactly(n: nat)
    ensures |StagedNames(n)| == n
  {
    if n > 0 {
      StagedNamesExactly(n - 1);
      StagedNameAbsent(n - 1, n - 1);
    }
  }

  /** Every name among the first `n` staged ones is `StagedName(i)` for some `i < n`. */
  lemma {:induction false} StagedNameIndex(n: nat, k: string)
    requires k in StagedNames(n)
    ensures exists i :: 0 <= i < n && k == StagedName(i)
  {
    if k != StagedName(n - 1) {
      StagedNameIndex(n - 1, k);
    }
  }

  /**
   * Staging keeps count: after `n` frames the scratch directory holds exactly the names
   * `StagedName(0)` to `StagedName(n - 1)`, one per frame.
   */
  lemma {:induction false} StagedDirNames(files: seq<string>, n: nat, folder: map<string, Bytes>,
                                          burn: (string, Bytes) -> Option<Bytes>, format: nat -> string)
    requires n <= |files| && InFolder(files, folder)
    requires BurnsSucceed(files, n, folder, burn, format)
    ensures StagedDir(files, n, folder, burn, format).Keys == StagedNames(n)
    ensures |StagedDir(files, n, folder, burn, format)| == n
  {
    StagedNamesExactly(n);
    if n > 0 {
      StagedDirStep(files, n - 1, folder, burn, format, BurnedFrame(files[n - 1], folder, burn, format).value);
      StagedDirNames(files, n - 1, folder, burn, format);
      StagedNameAbsent(n - 1, n - 1);
    }
  }

  /**
   * Staging keeps order: the `i`-th selected frame, label burned in, is staged as
   * `StagedName(i)`.
   */
  lemma {:induction false} StagedDirAt(files: seq<string>, n: nat, i: nat, folder: map<string, Bytes>,
                                       burn: (string, Bytes) -> Option<Bytes>, format: nat -> string)
    requires i < n <= |files| && InFolder(files, folder)
    requires BurnsSucceed(files, n, folder, burn, format)
    ensures StagedName(i) in StagedDir(files, n, folder, burn, format)
    ensures Some(StagedDir(files, n, folder, burn, format)[StagedName(i)]) == BurnedFrame(files[i], folder, burn, format)
  {
    var v := BurnedFrame(files[n - 1], folder, burn, format).value;
    StagedDirStep(files, n - 1, folder, burn, format, v);
    if i < n - 1 {
      StagedDirAt(files, n - 1, i, folder, burn, format);
      StagedNameInjective(i, n - 1);
    }
  }

  /** The selected frames of a listing of the folder are entries of the folder. */
  lemma SelectedInFolder(listing: seq<string>, folder: map<string, Bytes>)
    requires forall f :: f in listing && IsFrameName(f) ==> f in folder
    ensures InFolder(SelectFrames(listing), folder)
  {
  }

  /**
   * What staging `files` into a fresh scratch directory ends with: every burn succeeds
   * and the directory holds all the frames, or ffmpeg fails on frame `n` and the directory
   * holds the frames before it.
   */
  predicate StagedOutcome(outcome: StageOutcome, files: seq<string>, folder: map<string, Bytes>,
                          burn: (string, Bytes) -> Option<Bytes>, format: nat -> string)
    requires InFolder(files, folder)
  {
    && !outcome.NotEnoughFrames?
    && (outcome.Staged? <==> BurnsSucceed(files, |files|, folder, burn, format))
    && (outcome.Staged? ==>
          BurnsSucceed(files, |files|, folder, burn, format)
          && outcome.scratch == StagedDir(files, |files|, folder, burn, format))
    && (outcome.BurnFailed? ==>
          exists n :: 0 <= n < |files| && outcome.frame == files[n]
            && BurnedFrame(files[n], folder, burn, format).None?
            && BurnsSucceed(files, n, folder, burn, format)
            && outcome.scratch == StagedDir(files, n, folder, burn, format))
  }

  /**
   * The copy loop: the `i`-th file, its label burned in by ffmpeg, becomes
   * `StagedName(i)`, until ffmpeg fails on a file.
   */
  method StageFiles(files: seq<string>, folder: map<string, Bytes>,
                    burn: (string, Bytes) -> Option<Bytes>, format: nat -> string)
    returns (outcome: StageOutcome)
    requires InFolder(files, folder)
    ensures StagedOutcome(outcome, files, folder, burn, format)
  {
    var scratch: map<string, Bytes> := map[];
    for i := 0 to |files|
      invariant BurnsSucceed(files, i, folder, burn, format)
      invariant scratch == StagedDir(files, i, folder, burn, format)
    {
      var f := files[i];
      var text := EscapeLabel(Label(f, format));
      var out := burn(text, folder[f]);
      if out.None? {
        outcome := BurnFailed(f, scratch);
        return;
      }
      StagedDirStep(files, i, folder, burn, format, out.value);
      scratch := scratch[StagedName(i) := out.value];
    }
    outcome := Staged(scratch);
  }

  /**
   * Selects the frames of the listed folder and stages them. With fewer than two frames
   * nothing is staged and no scratch directory is made; otherwise the frames are staged
   * in sorted order.
   */
  method Stage(listing: seq<string>, folder: map<string, Bytes>,
               burn: (string, Bytes) -> Option<Bytes>, format: nat -> string)
    returns (outcome: StageOutcome)
    requires forall f :: f in listing && IsFrameName(f) ==> f in folder
    ensures InFolder(SelectFrames(listing), folder)
    ensures outcome.NotEnoughFrames? <==> |SelectFrames(listing)| < MinFrames
    ensures !outcome.NotEnoughFrames? ==> StagedOutcome(outcome, SelectFrames(listing), folder, burn, format)
  {
    var files := SelectFrames(listing);
    SelectedInFolder(listing, folder);
    if |files| < MinFrames {
      return NotEnoughFrames;
    }
    outcome := StageFiles(files, folder, burn, format);
  }
}
