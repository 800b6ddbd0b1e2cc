/** The scrolling history behind the waterfall display: a flat buffer of rows, moved in place. */
module Waterfall {
  import opened Sequences

  function Blank(n: nat): (r: seq<real>)
    ensures |r| == n
  {
    seq(n, _ => 0.0)
  }

  /** What a buffer that started blank shows after `log`: the end of it. */
  function History(size: nat, log: seq<real>): (r: seq<real>)
    ensures |r| == size
  {
    (Blank(size) + log)[|log|..]
  }

  ghost predicate RowsOf(log: seq<seq<real>>, points: nat) {
    forall k :: 0 <= k < |log| ==> |log[k]| == points
  }

  function BlankRows(n: nat, points: nat): (rows: seq<seq<real>>)
    ensures |rows| == n && RowsOf(rows, points)
  {
    seq(n, _ => Blank(points))
  }

  lemma Distribute(a: nat, b: nat, n: nat)
    ensures (a + b) * n == a * n + b * n
  {
  }

  lemma {:induction false} FlatBlank(n: nat, points: nat)
    ensures Flatten(BlankRows(n, points)) == Blank(n * points)
    decreases n
  {
    if n == 0 {
    } else {
      hide Blank;
      FlatBlank(n - 1, points);
      assert BlankRows(n, points)[..n - 1] == BlankRows(n - 1, points);
      BlankSum((n - 1) * points, points);
      Distribute(n - 1, 1, points);
    }
  }

  lemma BlankSum(a: nat, b: nat)
    ensures Blank(a) + Blank(b) == Blank(a + b)
  {
  }

  lemma {:induction false} FlatLength(rows: seq<seq<real>>, points: nat)
    requires RowsOf(rows, points)
    ensures |Flatten(rows)| == |rows| * points
  {
    if rows != [] {
      FlatLength(rows[..|rows| - 1], points);
      assert (|rows| - 1) * points + points == |rows| * points;
    }
  }

  lemma RowEnds(i: nat, n: nat, points: nat)
    requires i < n
    ensures 0 <= i * points <= i * points + points <= n * points
  {
    assert (i + 1) * points <= n * points by {
      assert (n - i - 1) * points >= 0;
    }
    assert (i + 1) * points == i * points + points;
  }

  lemma {:induction false} FlatRow(rows: seq<seq<real>>, points: nat, i: nat)
    requires RowsOf(rows, points) && i < |rows|
    ensures |Flatten(rows)| == |rows| * points && i * points + points <= |rows| * points
    ensures Flatten(rows)[i * points..i * points + points] == rows[i]
    decreases |rows|
  {
    var front := rows[..|rows| - 1];
    FlatLength(rows, points);
    FlatLength(front, points);
    RowEnds(i, |rows|, points);
    if i < |front| {
      FlatRow(front, points, i);
      assert Flatten(rows)[i * points..i * points + points] == Flatten(front)[i * points..i * points + points];
    }
  }

  /** Row `r` of the display: the end of the log, preceded by blank rows. */
  function LogRow(log: seq<seq<real>>, points: nat, i: int): seq<real>
    requires i < |log|
  {
    if i < 0 then Blank(points) else log[i]
  }

  /** Each row of the buffer is the row of the log that many places from its end. */
  lemma HistoryRow(log: seq<seq<real>>, height: nat, points: nat, r: nat)
    requires RowsOf(log, points) && r < height
    ensures r * points + points <= height * points
    ensures History(height * points, Flatten(log))[r * points..r * points + points] == LogRow(log, points, |log| - height + r)
  {
    hide Flatten, Blank, LogRow, History;
    RowEnds(r, height, points);
    PaddedRow(log, height, points, r);
    SliceOfHistory(height * points, Flatten(log), r * points, points, LogRow(log, points, |log| - height + r));
  }

  lemma PaddedRow(log: seq<seq<real>>, height: nat, points: nat, r: nat)
    requires RowsOf(log, points) && r < height
    ensures var all, a := Blank(height * points) + Flatten(log), |Flatten(log)| + r * points;
            a + points <= |all| && all[a..a + points] == LogRow(log, points, |log| - height + r)
  {
    hide Flatten, Blank;
    var all := BlankRows(height, points) + log;
    FlattenAppend(BlankRows(height, points), log);
    FlatBlank(height, points);
    FlatLength(log, points);
    FlatRow(all, points, |log| + r);
    Distribute(|log|, r, points);
  }

  lemma SliceOfHistory(size: nat, log: seq<real>, b: nat, n: nat, row: seq<real>)
    requires b + n <= size && (Blank(size) + log)[|log| + b..|log| + b + n] == row
    ensures History(size, log)[b..b + n] == row
  {
  }

  /** Further rows push the oldest out. */
  lemma HistoryAppend(size: nat, log: seq<real>, more: seq<real>)
    ensures History(size, log + more) == (History(size, log) + more)[|more|..]
  {
  }

  class WaterfallData {
    var spectrumData: array<real>
    var fftPoints: nat
    var left: real
    var width: real
    var numLinesToUpdate: int
    const historyLength: nat
    ghost var log: seq<seq<real>>

    ghost predicate Valid()
      reads this, spectrumData
    {
      && historyLength > 0
      && spectrumData.Length == historyLength * fftPoints
      && RowsOf(log, fftPoints)
      && spectrumData[..] == History(historyLength * fftPoints, Flatten(log))
    }

    constructor (minimumFrequency: real, maximumFrequency: real, fftPoints: nat, historyExtent: nat)
      requires historyExtent > 0
      ensures Valid() && fresh(spectrumData) && log == []
      ensures this.fftPoints == fftPoints && historyLength == historyExtent
    {
      left, width := minimumFrequency, maximumFrequency - minimumFrequency;
      this.fftPoints := fftPoints;
      historyLength := historyExtent;
      spectrumData := new real[historyExtent * fftPoints];
      numLinesToUpdate, log := 0, [];
      new;
      Reset();
    }

    method Reset()
      requires historyLength > 0 && spectrumData.Length == historyLength * fftPoints
      modifies this`numLinesToUpdate, this`log, spectrumData
      ensures Valid() && log == [] && numLinesToUpdate == -1
    {
      Clear(0, spectrumData.Length);
      numLinesToUpdate := -1;
      log := [];
      assert spectrumData[..] == Blank(spectrumData.Length) + [];
    }

    /** Zero `n` places. */
    method Clear(from: nat, n: nat)
      requires from + n <= spectrumData.Length
      modifies spectrumData
      ensures spectrumData[..] == old(spectrumData[..from]) + Blank(n) + old(spectrumData[from + n..])
    {
      forall k | from <= k < from + n {
        spectrumData[k] := 0.0;
      }
    }

    /** Move `n` places to the start; the two ranges may overlap. */
    method MoveToStart(from: nat, n: nat)
      requires from + n <= spectrumData.Length
      modifies spectrumData
      ensures spectrumData[..] == old(spectrumData[from..from + n]) + old(spectrumData[n..])
    {
      forall k | 0 <= k < n {
        spectrumData[k] := spectrumData[from + k];
      }
    }

    method CopyIn(at: nat, row: seq<real>)
      requires at + |row| <= spectrumData.Length
      modifies spectrumData
      ensures spectrumData[..] == old(spectrumData[..at]) + row + old(spectrumData[at + |row|..])
    {
      forall k | 0 <= k < |row| {
        spectrumData[at + k] := row[k];
      }
    }

    method ResizeData(startFreq: real, stopFreq: real, points: nat)
      requires Valid()
      modifies this, spectrumData
      ensures Valid() && log == [] && fftPoints == points && left == startFreq && width == stopFreq - startFreq
      ensures spectrumData == old(spectrumData) || fresh(spectrumData)
    {
      if points != fftPoints || width != stopFreq - startFreq || left != startFreq {
        left, width := startFreq, stopFreq - startFreq;
        fftPoints := points;
        spectrumData := new real[fftPoints * historyLength];
      }
      Reset();
    }

    ghost predicate Sized()
      reads this
    {
      historyLength > 0 && spectrumData.Length == historyLength * fftPoints
    }

    /** How much of the old data is kept, and how much is blanked. */
    method Regions(droppedFrames: nat) returns (keep: nat, blank: nat)
      requires Sized()
      ensures keep + blank + fftPoints == spectrumData.Length
      ensures var d := BlankSize(droppedFrames, fftPoints);
              blank == d || (d >= spectrumData.Length && keep == 0)
    {
      var heightOffset: int := historyLength - 1 - droppedFrames;
      var drawingDroppedFrames: nat := droppedFrames;
      if heightOffset < 0 {
        heightOffset := 0;
        drawingDroppedFrames := historyLength - 1;
      }
      Heights(heightOffset, drawingDroppedFrames, historyLength, fftPoints);
      Dropped(droppedFrames, drawingDroppedFrames, historyLength, fftPoints);
      keep, blank := heightOffset * fftPoints, drawingDroppedFrames * fftPoints;
    }

    /** Move the kept data to the start, and blank what follows it. */
    method ShiftUp(keep: nat, blank: nat)
      requires keep + blank + fftPoints == spectrumData.Length
      modifies spectrumData
      ensures spectrumData[..keep + blank] == old(spectrumData[blank + fftPoints..]) + Blank(blank)
    {
      if keep > 0 {
        MoveToStart(blank + fftPoints, keep);
      }
      assert spectrumData[..keep] == old(spectrumData[blank + fftPoints..]);
      if blank > 0 {
        Clear(keep, blank);
      }
    }

    /** The three copies together scroll the buffer, also when more rows were dropped than it holds. */
    method Scroll(fftData: seq<real>, droppedFrames: nat)
      requires Sized() && |fftData| == fftPoints
      modifies spectrumData
      ensures var d := BlankSize(droppedFrames, fftPoints);
              spectrumData[..] == (old(spectrumData[..]) + (Blank(d) + fftData))[d + |fftData|..]
    {
      hide Sized, BlankSize, Blank;
      var keep, blank := Regions(droppedFrames);
      ShiftUp(keep, blank);
      CopyIn(keep + blank, fftData);
      Scrolled(old(spectrumData[..]), fftData, keep, blank, BlankSize(droppedFrames, fftPoints));
    }

    /** Scroll by the dropped frames and the new row; a row of another size is ignored. */
    method AddFFTData(fftData: seq<real>, droppedFrames: nat)
      requires Valid()
      modifies this`log, spectrumData
      ensures Valid()
      ensures log == if |fftData| == fftPoints then old(log) + BlankRows(droppedFrames, fftPoints) + [fftData] else old(log)
    {
      if |fftData| == fftPoints {
        hide History, Flatten, Blank;
        ghost var before := spectrumData[..];
        Scroll(fftData, droppedFrames);
        Extend(before, log, fftData, droppedFrames);
        log := log + BlankRows(droppedFrames, fftPoints) + [fftData];
      }
    }

    /** The log grows by the dropped rows and the new one. */
    lemma Extend(before: seq<real>, log: seq<seq<real>>, row: seq<real>, dropped: nat)
      requires before == History(historyLength * fftPoints, Flatten(log)) && |row| == fftPoints
      ensures History(historyLength * fftPoints, Flatten(log + BlankRows(dropped, fftPoints) + [row])) ==
              (before + (Blank(dropped * fftPoints) + row))[dropped * fftPoints + fftPoints..]
    {
      hide History;
      var blank := BlankRows(dropped, fftPoints);
      FlattenAppend(log, blank);
      FlatBlank(dropped, fftPoints);
      FlattenAppend(log + blank, [row]);
      assert Flatten([row]) == [] + row by {
        assert [row][..0] == [];
      }
      var more := Blank(dropped * fftPoints) + row;
      assert Flatten(log) + more == Flatten(log) + Blank(dropped * fftPoints) + row;
      HistoryAppend(historyLength * fftPoints, Flatten(log), more);
    }
  }

  function BlankSize(dropped: nat, points: nat): nat { dropped * points }

  lemma Heights(offset: nat, drawing: nat, height: nat, points: nat)
    requires offset + drawing + 1 == height
    ensures offset * points + drawing * points == (height - 1) * points
    ensures (drawing + 1) * points == drawing * points + points
    ensures (height - 1) * points + points == height * points
    ensures 0 <= offset * points && 0 <= drawing * points
  {
  }

  lemma Dropped(dropped: nat, drawing: nat, height: nat, points: nat)
    requires drawing == (if dropped < height then dropped else height - 1)
    ensures dropped < height ==> dropped * points == drawing * points
    ensures dropped >= height ==> dropped * points >= height * points
  {
    if dropped >= height {
      assert (dropped - height) * points >= 0;
    }
  }

  lemma Scrolled(before: seq<real>, row: seq<real>, a: nat, b: nat, d: nat)
    requires |before| == a + b + |row|
    requires d == b || (d >= |before| && a == 0)
    ensures before[b + |row|..] + Blank(b) + row == (before + (Blank(d) + row))[d + |row|..]
  {
  }
}
