/**
 * The frame store: the screenshot folder as a map from file name to contents, the two
 * names a capture writes (`{basename}_{epochMillis}.png` and `{basename}-latest.png`),
 * and which directory entries are taken as animation frames, in which order.
 */
module Frames {
  import opened Prelude
  import opened Strings
  import opened Order

  const PngSuffix: string := ".png"
  const LatestSuffix: string := "-latest.png"

  /** The file a capture taken at `stamp` (milliseconds since the epoch) is saved as. */
  function ScreenshotName(basename: string, stamp: nat): string {
    basename + "_" + Decimal(stamp) + PngSuffix
  }

  /** The alias that always holds a copy of the newest capture. */
  function LatestName(basename: string): string {
    basename + LatestSuffix
  }

  /** The scratch directory an animation run creates inside the folder. */
  function ScratchDirName(stamp: nat): string {
    "__ffmpeg_tmp_" + Decimal(stamp) + "__"
  }

  /** A directory entry taken as a frame: a `.png` that is not a `-latest.png` alias. */
  predicate IsFrameName(f: string) {
    EndsWith(f, PngSuffix) && !EndsWith(f, LatestSuffix)
  }

  /** The entries that are frames, each kept as often as it is listed. */
  function FilterFrames(names: seq<string>): (r: seq<string>)
    ensures forall f :: multiset(r)[f] == if IsFrameName(f) then multiset(names)[f] else 0
  {
    if names == [] then []
    else
      assert names == [names[0]] + names[1..];
      (if IsFrameName(names[0]) then [names[0]] else []) + FilterFrames(names[1..])
  }

  /**
   * The frames of a directory listing in the order the animation uses: the frame entries,
   * sorted as strings (not by the timestamp inside the name).
   */
  function SelectFrames(names: seq<string>): (r: seq<string>)
    ensures Sorted(r)
    ensures forall f :: multiset(r)[f] == if IsFrameName(f) then multiset(names)[f] else 0
    ensures forall f :: f in r <==> f in names && IsFrameName(f)
  {
    var r := SortStrings(FilterFrames(names));
    assert forall f :: f in r <==> multiset(r)[f] > 0;
    r
  }

  /** Whatever order the directory is listed in, the same frames come out in the same order. */
  lemma SelectionIgnoresListingOrder(names: seq<string>, names': seq<string>)
    requires multiset(names) == multiset(names')
    ensures SelectFrames(names) == SelectFrames(names')
  {
    var a, b := SelectFrames(names), SelectFrames(names');
    assert forall f :: multiset(a)[f] == multiset(b)[f];
    assert multiset(a) == multiset(b);
    SortedUnique(a, b);
  }

  /** Every capture file, of any basename, is a frame. */
  lemma ScreenshotIsFrame(basename: string, stamp: nat)
    ensures IsFrameName(ScreenshotName(basename, stamp))
  {
    var name := ScreenshotName(basename, stamp);
    var digits := Decimal(stamp);
    assert name[|name| - |PngSuffix|..] == PngSuffix;
    assert name[|name| - 5] == digits[|digits| - 1];
    assert IsDigit(name[|name| - 5]);
    assert LatestSuffix[|LatestSuffix| - 5] == 't';
  }

  /** The `-latest.png` alias is never a frame. */
  lemma LatestIsNotFrame(basename: string)
    ensures !IsFrameName(LatestName(basename))
  {
  }

  /** Scratch directories left in the folder by earlier runs are never frames. */
  lemma ScratchDirIsNotFrame(stamp: nat)
    ensures !IsFrameName(ScratchDirName(stamp))
  {
    var name := ScratchDirName(stamp);
    assert name[|name| - 1] == '_';
  }

  /**
   * Captures of one basename whose timestamps print with the same number of digits sort
   * in timestamp order.
   */
  lemma ScreenshotOrderSameWidth(basename: string, s: nat, t: nat)
    requires |Decimal(s)| == |Decimal(t)|
    ensures LexLess(ScreenshotName(basename, s), ScreenshotName(basename, t)) <==> s < t
  {
    var ds, dt := Decimal(s), Decimal(t);
    assert ScreenshotName(basename, s) == (basename + "_") + (ds + PngSuffix);
    assert ScreenshotName(basename, t) == (basename + "_") + (dt + PngSuffix);
    LexLessCommonPrefix(basename + "_", ds + PngSuffix, dt + PngSuffix);
    LexLessEqualLength(ds, dt, PngSuffix, PngSuffix);
    LexLessIrreflexive(PngSuffix);
    LexLessDigits(ds, dt);
    DigitsValueOfDecimal(s);
    DigitsValueOfDecimal(t);
  }

  /** Across a change in width the string order is not the timestamp order. */
  lemma SortIsNotTimestampOrder()
    ensures LexLess(ScreenshotName("home", 1000), ScreenshotName("home", 999))
  {
  }

  /**
   * A capture: the image is written under its timestamped name and then copied to the
   * `-latest.png` alias; every other entry of the folder is left as it was.
   */
  method Capture(folder: map<string, Bytes>, basename: string, now: nat, image: Bytes)
    returns (folder': map<string, Bytes>, file: string, latest: string)
    ensures file == ScreenshotName(basename, now) && latest == LatestName(basename)
    ensures file != latest
    ensures folder'.Keys == folder.Keys + {file, latest}
    ensures folder'[file] == image && folder'[latest] == image
    ensures forall f :: f in folder && f != file && f != latest ==> folder'[f] == folder[f]
  {
    file := ScreenshotName(basename, now);
    folder' := folder[file := image];
    latest := LatestName(basename);
    folder' := folder'[latest := folder'[file]];
    ScreenshotIsFrame(basename, now);
    LatestIsNotFrame(basename);
  }
}
