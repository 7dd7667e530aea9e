/** The track-to-pixel slot table: for every unique pixel, a fixed-width row
    of the indices of the tracks whose pixel lists contain that pixel, found
    by a bounded linear probe. Empty slots hold -1; a track that finds the
    row full is dropped. */
module TrackPixelMap {
  import opened Numerics

  /** The marker of an empty slot. */
  const Empty: int := -1

  /** Where the probe for track t stops in a row: the first slot that is
      empty or already holds t, or the width of the row if there is none. */
  function FirstSlot(row: seq<int>, t: int): (k: nat)
    ensures k <= |row|
    ensures forall j :: 0 <= j < k ==> row[j] != Empty && row[j] != t
    ensures k < |row| ==> row[k] == Empty || row[k] == t
  {
    if row == [] then 0
    else if row[0] == Empty || row[0] == t then 0
    else 1 + FirstSlot(row[1..], t)
  }

  /** One probe for track t: it writes t where the probe stops, unless the
      row is full. */
  function Place(row: seq<int>, t: int): (r: seq<int>)
    ensures |r| == |row|
    ensures forall j :: 0 <= j < |row| && r[j] != row[j] ==> r[j] == t && row[j] == Empty
  {
    var k := FirstSlot(row, t);
    if k < |row| then row[k := t] else row
  }

  /** Afterwards t is in the row unless the row was full without it; a
      row with no empty slot keeps its contents. */
  lemma PlaceKeepsTrack(row: seq<int>, t: int)
    ensures Empty in row || t in row ==> t in Place(row, t)
    ensures Empty !in row ==> Place(row, t) == row
  {
  }

  /** The inner loops of the kernel for one track: every one of the
      track's pixels equal to upix triggers a probe for the track. */
  function ScanTrack(row: seq<int>, upix: int, pids: seq<int>, itrk: int): (r: seq<int>)
    ensures |r| == |row|
  {
    if pids == [] then row
    else
      var prev := ScanTrack(row, upix, pids[..|pids| - 1], itrk);
      if pids[|pids| - 1] == upix then Place(prev, itrk) else prev
  }

  /** The row of pixel upix after the kernel has visited every track in
      order. */
  function FillRow(row: seq<int>, upix: int, pixels: seq<seq<int>>): (r: seq<int>)
    ensures |r| == |row|
  {
    if pixels == [] then row
    else
      var n := |pixels| - 1;
      ScanTrack(FillRow(row, upix, pixels[..n]), upix, pixels[n], n)
  }

  /** The tracks whose pixel lists contain upix, in increasing order. */
  function TouchingTracks(upix: int, pixels: seq<seq<int>>): (ts: seq<int>)
    ensures forall i :: 0 <= i < |ts| ==> 0 <= ts[i] < |pixels| && upix in pixels[ts[i]]
    ensures forall i, j :: 0 <= i < j < |ts| ==> ts[i] < ts[j]
    ensures forall t :: 0 <= t < |pixels| && upix in pixels[t] ==> t in ts
  {
    if pixels == [] then []
    else
      var n := |pixels| - 1;
      var prev := TouchingTracks(upix, pixels[..n]);
      assert forall t :: 0 <= t < n ==> pixels[..n][t] == pixels[t];
      prev + (if upix in pixels[n] then [n] else [])
  }

  /** A row of width w that holds the first tracks of ts, as many as fit,
      followed by empty slots. */
  function Filled(ts: seq<int>, w: nat): (r: seq<int>)
    ensures |r| == w
  {
    var n := Min(|ts|, w);
    ts[..n] + seq(w - n, _ => Empty)
  }

  /** A row with every slot empty. */
  function EmptyRow(w: nat): (r: seq<int>)
    ensures |r| == w && forall j :: 0 <= j < w ==> r[j] == Empty
  {
    seq(w, _ => Empty)
  }

  /** Probing for a new track t, larger than every track in the row, puts it
      right after them when there is room and drops it otherwise. */
  lemma PlaceNew(ts: seq<int>, w: nat, t: int)
    requires forall i :: 0 <= i < |ts| ==> 0 <= ts[i] < t
    ensures Place(Filled(ts, w), t) == Filled(ts + [t], w)
  {
    var row := Filled(ts, w);
    var n := Min(|ts|, w);
    var k := FirstSlot(row, t);
    if n < w {
      assert row[n] == Empty;
      assert k == n;
      assert Place(row, t) == Filled(ts + [t], w);
    } else {
      assert k == w;
      assert (ts + [t])[..w] == ts[..w];
    }
  }

  /** Probing again for the track t that was placed last finds it (or finds
      the row full) and leaves the row as it is. */
  lemma PlaceAgain(ts: seq<int>, w: nat, t: int)
    requires forall i :: 0 <= i < |ts| ==> 0 <= ts[i] < t
    ensures Place(Filled(ts + [t], w), t) == Filled(ts + [t], w)
  {
    var row := Filled(ts + [t], w);
    var k := FirstSlot(row, t);
    if |ts| < w {
      assert row[|ts|] == t;
      assert k == |ts|;
    } else {
      assert k == w;
    }
  }

  /** Scanning the pixels of track itrk, larger than every track already in
      the row, appends itrk once if one of its pixels is upix. */
  lemma {:induction false} ScanTrackAppends(ts: seq<int>, w: nat, upix: int, pids: seq<int>, itrk: int)
    requires forall i :: 0 <= i < |ts| ==> 0 <= ts[i] < itrk
    ensures ScanTrack(Filled(ts, w), upix, pids, itrk)
            == Filled(ts + (if upix in pids then [itrk] else []), w)
  {
    if pids == [] {
      assert ts + [] == ts;
    } else {
      var k := |pids| - 1;
      ScanTrackAppends(ts, w, upix, pids[..k], itrk);
      assert pids == pids[..k] + [pids[k]];
      assert upix in pids <==> upix in pids[..k] || pids[k] == upix;
      if pids[k] == upix {
        if upix in pids[..k] {
          PlaceAgain(ts, w, itrk);
        } else {
          assert ts + [] == ts;
          PlaceNew(ts, w, itrk);
        }
      }
    }
  }

  /** Scanning one track writes only that track, and only into slots that
      were empty. */
  lemma {:induction false} ScanTrackFillsEmpty(row: seq<int>, upix: int, pids: seq<int>, itrk: int)
    ensures var r := ScanTrack(row, upix, pids, itrk);
            forall j :: 0 <= j < |row| && r[j] != row[j] ==> r[j] == itrk && row[j] == Empty
  {
    if pids != [] {
      ScanTrackFillsEmpty(row, upix, pids[..|pids| - 1], itrk);
    }
  }

  /** Whatever row it starts from, the kernel only fills empty slots, and
      only with indices of tracks: a slot that held a track keeps it. */
  lemma {:induction false} FillRowFillsEmpty(row: seq<int>, upix: int, pixels: seq<seq<int>>)
    ensures var r := FillRow(row, upix, pixels);
            forall j :: 0 <= j < |row| && r[j] != row[j] ==> row[j] == Empty && 0 <= r[j] < |pixels|
  {
    if pixels != [] {
      var n := |pixels| - 1;
      FillRowFillsEmpty(row, upix, pixels[..n]);
      ScanTrackFillsEmpty(FillRow(row, upix, pixels[..n]), upix, pixels[n], n);
    }
  }

  /** From an all-empty row, the kernel leaves exactly the touching tracks
      in increasing order, as many as fit, then empty slots. */
  lemma {:induction false} FillFromEmpty(w: nat, upix: int, pixels: seq<seq<int>>)
    ensures FillRow(EmptyRow(w), upix, pixels) == Filled(TouchingTracks(upix, pixels), w)
  {
    if pixels == [] {
      assert Filled([], w) == EmptyRow(w);
    } else {
      var n := |pixels| - 1;
      FillFromEmpty(w, upix, pixels[..n]);
      ScanTrackAppends(TouchingTracks(upix, pixels[..n]), w, upix, pixels[n], n);
    }
  }

  /** What an initially empty row holds once the kernel is done: a filled
      prefix and an empty suffix; the prefix lists distinct tracks in
      increasing order, each touching the pixel; and every touching track is
      there unless the row is full. */
  lemma FillFromEmptyShape(w: nat, upix: int, pixels: seq<seq<int>>)
    ensures var r := FillRow(EmptyRow(w), upix, pixels);
      && |r| == w
      && (forall i, j :: 0 <= i < j < w && r[i] == Empty ==> r[j] == Empty)
      && (forall i, j :: 0 <= i < j < w && r[j] != Empty ==> r[i] != Empty && r[i] < r[j])
      && (forall i :: 0 <= i < w && r[i] != Empty ==> 0 <= r[i] < |pixels| && upix in pixels[r[i]])
      && (forall t :: 0 <= t < |pixels| && upix in pixels[t] ==> t in r || Empty !in r)
  {
    FillFromEmpty(w, upix, pixels);
    var ts := TouchingTracks(upix, pixels);
    var r := Filled(ts, w);
    var n := Min(|ts|, w);
    assert forall i :: 0 <= i < n ==> r[i] == ts[i];
    assert forall i :: n <= i < w ==> r[i] == Empty;
    forall t | 0 <= t < |pixels| && upix in pixels[t]
      ensures t in r || Empty !in r
    {
      var i :| 0 <= i < |ts| && ts[i] == t;
      if n == |ts| {
        assert r[i] == t;
      }
    }
  }

  /** The kernel thread for unique pixel number index: it scans every track
      and probes the row of that pixel for every pixel of the track equal to
      it. It writes row index and no other. */
  method FillPixelRow(m: array2<int>, index: nat, uniquePix: seq<int>, pixels: seq<seq<int>>)
    requires index < |uniquePix| && index < m.Length0
    modifies m
    ensures Row(m, index) == FillRow(old(Row(m, index)), uniquePix[index], pixels)
    ensures forall i, j :: 0 <= i < m.Length0 && i != index && 0 <= j < m.Length1 ==> m[i, j] == old(m[i, j])
  {
    var upix := uniquePix[index];
    ghost var row0 := Row(m, index);
    for itrk := 0 to |pixels|
      invariant Row(m, index) == FillRow(row0, upix, pixels[..itrk])
      invariant forall i, j :: 0 <= i < m.Length0 && i != index && 0 <= j < m.Length1 ==> m[i, j] == old(m[i, j])
    {
      assert pixels[..itrk + 1][..itrk] == pixels[..itrk];
      ghost var start := Row(m, index);
      for ipix := 0 to |pixels[itrk]|
        invariant Row(m, index) == ScanTrack(start, upix, pixels[itrk][..ipix], itrk)
        invariant forall i, j :: 0 <= i < m.Length0 && i != index && 0 <= j < m.Length1 ==> m[i, j] == old(m[i, j])
      {
        assert pixels[itrk][..ipix + 1][..ipix] == pixels[itrk][..ipix];
        var pid := pixels[itrk][ipix];
        if upix == pid {
          var slot := 0;
          while slot < m.Length1 && m[index, slot] != Empty && m[index, slot] != itrk
            invariant 0 <= slot <= m.Length1
            invariant forall j :: 0 <= j < slot ==> m[index, j] != Empty && m[index, j] != itrk
          {
            slot := slot + 1;
          }
          ghost var before := Row(m, index);
          assert slot == FirstSlot(before, itrk);
          if slot < m.Length1 {
            m[index, slot] := itrk;
            assert Row(m, index) == before[slot := itrk];
          }
        }
      }
      assert pixels[itrk][..|pixels[itrk]|] == pixels[itrk];
    }
    assert pixels[..|pixels|] == pixels;
  }

  /** The kernel over every unique pixel: row i of the map is filled for
      unique pixel i, and rows past the unique pixels are untouched. */
  method GetTrackPixelMap(m: array2<int>, uniquePix: seq<int>, pixels: seq<seq<int>>)
    requires |uniquePix| <= m.Length0
    modifies m
    ensures forall i :: 0 <= i < |uniquePix| ==> Row(m, i) == FillRow(old(Row(m, i)), uniquePix[i], pixels)
    ensures forall i, j :: |uniquePix| <= i < m.Length0 && 0 <= j < m.Length1 ==> m[i, j] == old(m[i, j])
  {
    for index := 0 to |uniquePix|
      invariant forall i :: 0 <= i < index ==> Row(m, i) == FillRow(old(Row(m, i)), uniquePix[i], pixels)
      invariant forall i, j :: index <= i < m.Length0 && 0 <= j < m.Length1 ==> m[i, j] == old(m[i, j])
    {
      assert Row(m, index) == old(Row(m, index));
      ghost var done := seq(index, i requires 0 <= i < index reads m => Row(m, i));
      FillPixelRow(m, index, uniquePix, pixels);
      assert forall i :: 0 <= i < index ==> Row(m, i) == done[i];
    }
  }
}
