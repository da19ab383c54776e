/**
 The striped video paths: stripes are drawn into an off-screen back buffer and the buffer is
 copied to the visible canvas only at a frame boundary, or when a tick brings nothing new.
 Out-of-order JPEG stripes are recognised by a 16-bit frame id that wraps.
 */
module StripeCompositor {
  import opened Wrappers

  /** What is drawn on each canvas row; rows not present are blank. */
  type Image = map<nat, int>

  const BLANK: Image := map[]

  /** A decoded stripe: its 16-bit frame id (old JPEG senders have none), its row, its pixels. */
  datatype Stripe = Stripe(frameId: Option<int>, startY: nat, pixels: Image)

  const REORDER_WINDOW: int := 256
  const IDS: int := 0x1_0000

  // ----- Drawing

  /** drawImage of a stripe: its rows replace what was there. */
  function Draw(canvas: Image, s: Stripe): Image {
    canvas + s.pixels
  }

  /** The picture after drawing stripes directly on a blank canvas, one after the other. */
  function Picture(stripes: seq<Stripe>): Image {
    if stripes == [] then BLANK else Draw(Picture(stripes[..|stripes| - 1]), stripes[|stripes| - 1])
  }

  lemma PictureSnoc(stripes: seq<Stripe>, s: Stripe)
    ensures Picture(stripes + [s]) == Draw(Picture(stripes), s)
  {
    assert (stripes + [s])[..|stripes|] == stripes;
  }

  /** Stripe k is the last to cover row y. */
  predicate LastToCover(stripes: seq<Stripe>, k: nat, y: nat)
    requires k < |stripes|
  {
    y in stripes[k].pixels && forall j | k < j < |stripes| :: y !in stripes[j].pixels
  }

  /** The rows painted are those some stripe covers, and each shows the last stripe that does. */
  ghost predicate ShowsLast(image: Image, stripes: seq<Stripe>) {
    && (forall y: nat :: y in image <==> exists k | 0 <= k < |stripes| :: y in stripes[k].pixels)
    && forall k: nat, y: nat | k < |stripes| && LastToCover(stripes, k, y) ::
         y in image && image[y] == stripes[k].pixels[y]
  }

  lemma {:induction false} PictureShowsLast(stripes: seq<Stripe>)
    ensures ShowsLast(Picture(stripes), stripes)
    decreases |stripes|
  {
    if stripes != [] {
      var n := |stripes| - 1;
      PictureShowsLast(stripes[..n]);
      DrawnOver(Picture(stripes[..n]), stripes, n);
    }
  }

  lemma DrawnOver(before: Image, stripes: seq<Stripe>, n: nat)
    requires |stripes| == n + 1 && ShowsLast(before, stripes[..n])
    ensures ShowsLast(Draw(before, stripes[n]), stripes)
  {
    var after := Draw(before, stripes[n]);
    assert forall k | 0 <= k < n :: stripes[..n][k] == stripes[k];
    forall y: nat ensures y in after <==> exists k | 0 <= k < |stripes| :: y in stripes[k].pixels {
      if y in before {
        var k :| 0 <= k < n && y in stripes[..n][k].pixels;
        assert y in stripes[k].pixels;
      }
      if exists k | 0 <= k < n :: y in stripes[k].pixels {
        var k :| 0 <= k < n && y in stripes[k].pixels;
        assert y in stripes[..n][k].pixels;
      }
    }
    forall k: nat, y: nat | k < |stripes| && LastToCover(stripes, k, y)
      ensures y in after && after[y] == stripes[k].pixels[y]
    {
      if k < n {
        assert LastToCover(stripes[..n], k, y);
        assert y !in stripes[n].pixels;
      }
    }
  }

  lemma {:induction false} PictureRowsGrow(stripes: seq<Stripe>, m: nat)
    requires m <= |stripes|
    ensures Picture(stripes[..m]).Keys <= Picture(stripes).Keys
    decreases |stripes|
  {
    if m < |stripes| {
      var n := |stripes| - 1;
      PictureRowsGrow(stripes[..n], m);
      assert stripes[..n][..m] == stripes[..m];
    } else {
      assert stripes[..m] == stripes;
    }
  }

  /** Copying a later picture over an earlier one gives the later one. */
  lemma BlitLater(stripes: seq<Stripe>, m: nat)
    requires m <= |stripes|
    ensures Picture(stripes[..m]) + Picture(stripes) == Picture(stripes)
  {
    PictureRowsGrow(stripes, m);
  }

  // ----- Frame boundaries

  /** Stripe m starts a new frame. */
  predicate StartsFrame(stripes: seq<Stripe>, m: nat)
    requires 0 < m < |stripes|
  {
    stripes[m - 1].frameId.Some? && stripes[m].frameId != stripes[m - 1].frameId
  }

  /** The last frame start after position `shown`, or `shown` when there is none. */
  function LastStart(stripes: seq<Stripe>, shown: nat): (m: nat)
    requires shown <= |stripes|
    ensures shown <= m <= |stripes|
    ensures m > shown ==> 0 < m < |stripes| && StartsFrame(stripes, m)
    ensures forall k :: m < k < |stripes| && shown < k ==> !StartsFrame(stripes, k)
  {
    LastStartFrom(stripes, shown, |stripes|)
  }

  function LastStartFrom(stripes: seq<Stripe>, shown: nat, k: nat): (m: nat)
    requires shown <= k <= |stripes|
    requires forall j :: k < j < |stripes| && shown < j ==> !StartsFrame(stripes, j)
    ensures shown <= m <= |stripes|
    ensures m > shown ==> 0 < m < |stripes| && StartsFrame(stripes, m)
    ensures forall j :: m < j < |stripes| && shown < j ==> !StartsFrame(stripes, j)
    decreases k
  {
    if k == shown then shown
    else if k < |stripes| && StartsFrame(stripes, k) then k
    else LastStartFrom(stripes, shown, k - 1)
  }

  /** No frame that is already complete is missing from the first `shown` stripes. */
  ghost predicate NoStartAfter(stripes: seq<Stripe>, shown: nat) {
    forall k :: shown < k < |stripes| ==> !StartsFrame(stripes, k)
  }

  lemma LastStartUnique(stripes: seq<Stripe>, from: nat, shown: nat)
    requires from <= shown <= |stripes| && NoStartAfter(stripes, shown)
    requires shown == from || (0 < shown < |stripes| && StartsFrame(stripes, shown))
    ensures shown == LastStart(stripes, from)
  {
  }

  lemma StartsSnoc(stripes: seq<Stripe>, s: Stripe, k: nat)
    requires 0 < k < |stripes|
    ensures StartsFrame(stripes + [s], k) == StartsFrame(stripes, k)
  {
  }

  lemma NoStartSnoc(stripes: seq<Stripe>, s: Stripe, shown: nat)
    requires shown <= |stripes| && NoStartAfter(stripes, shown)
    requires shown < |stripes| ==> !StartsFrame(stripes + [s], |stripes|)
    ensures NoStartAfter(stripes + [s], shown)
  {
    forall k | shown < k < |stripes| + 1 ensures !StartsFrame(stripes + [s], k) {
      if k < |stripes| { StartsSnoc(stripes, s, k); }
    }
  }

  /** True frame numbers never go back from one stripe to the next and advance by less than 2^16. */
  ghost predicate Numbered(stripes: seq<Stripe>, frames: seq<int>) {
    && |frames| == |stripes|
    && (forall k :: 0 <= k < |stripes| ==> stripes[k].frameId == Some(frames[k] % IDS))
    && forall k :: 0 < k < |stripes| ==> 0 <= frames[k] - frames[k - 1] < IDS
  }

  lemma {:induction false} NumbersNeverGoBack(stripes: seq<Stripe>, frames: seq<int>, i: nat, j: nat)
    requires Numbered(stripes, frames) && i <= j < |stripes|
    ensures frames[i] <= frames[j]
    decreases j
  {
    if i < j {
      NumbersNeverGoBack(stripes, frames, i, j - 1);
      assert 0 <= frames[j] - frames[j - 1];
    }
  }

  /** A frame start on wrapped ids is a boundary between true frames: no frame is on both sides. */
  lemma StartSeparatesFrames(stripes: seq<Stripe>, frames: seq<int>, m: nat)
    requires Numbered(stripes, frames) && 0 < m < |stripes|
    ensures StartsFrame(stripes, m) <==> frames[m - 1] != frames[m]
    ensures StartsFrame(stripes, m) ==> forall i, j :: 0 <= i < m <= j < |stripes| ==> frames[i] < frames[j]
  {
    var d := frames[m] - frames[m - 1];
    assert 0 <= d < IDS;
    if frames[m] % IDS == frames[m - 1] % IDS {
      assert d % IDS == 0;
    }
    if StartsFrame(stripes, m) {
      forall i, j | 0 <= i < m <= j < |stripes| ensures frames[i] < frames[j] {
        NumbersNeverGoBack(stripes, frames, i, m - 1);
        NumbersNeverGoBack(stripes, frames, m, j);
      }
    }
  }

  /** No true frame has stripes both among the first m and after them. */
  ghost predicate WholeFrames(frames: seq<int>, m: nat) {
    forall i, j | 0 <= i < m <= j < |frames| :: frames[i] != frames[j]
  }

  /** The stripes of a frame come together. */
  ghost predicate Grouped(frames: seq<int>) {
    forall i, j, k | 0 <= i < j < k < |frames| && frames[i] == frames[k] :: frames[j] == frames[i]
  }

  /** The ids are those of the true frames and tell neighbours apart, in whatever order they come. */
  ghost predicate ToldApart(stripes: seq<Stripe>, frames: seq<int>) {
    && |frames| == |stripes|
    && (forall k | 0 <= k < |stripes| :: stripes[k].frameId == Some(frames[k] % IDS))
    && forall k | 0 < k < |stripes| :: -IDS < frames[k] - frames[k - 1] < IDS
  }

  lemma StartIsChange(stripes: seq<Stripe>, frames: seq<int>, m: nat)
    requires ToldApart(stripes, frames) && 0 < m < |stripes|
    ensures StartsFrame(stripes, m) <==> frames[m - 1] != frames[m]
  {
    var d := frames[m] - frames[m - 1];
    assert -IDS < d < IDS;
    if frames[m] % IDS == frames[m - 1] % IDS {
      assert d % IDS == 0;
    }
  }

  /** Between two different numbers there is a step where they change. */
  lemma {:induction false} ChangeBetween(frames: seq<int>, i: nat, j: nat) returns (m: nat)
    requires i < j < |frames| && frames[i] != frames[j]
    ensures i < m <= j && frames[m - 1] != frames[m]
    decreases j
  {
    if frames[j - 1] != frames[j] {
      m := j;
    } else {
      m := ChangeBetween(frames, i, j - 1);
    }
  }

  lemma NoChangeInside(frames: seq<int>, i: nat, m: nat, j: nat)
    requires Grouped(frames) && i < m <= j < |frames|
    ensures frames[i] == frames[j] ==> frames[m - 1] == frames[m]
  {
    if frames[i] == frames[j] {
      assert i < m - 1 ==> frames[m - 1] == frames[i];
      assert m < j ==> frames[m] == frames[i];
    }
  }

  /**
   A picture is presented at frame starts and when a tick brings nothing. What is presented at frame
   starts is always a whole number of true frames, if and only if each frame's stripes come together.
   */
  lemma StartsAreWholeExactly(stripes: seq<Stripe>, frames: seq<int>)
    requires ToldApart(stripes, frames)
    ensures (forall m: nat | 0 < m < |stripes| && StartsFrame(stripes, m) :: WholeFrames(frames, m))
       <==> Grouped(frames)
  {
    if Grouped(frames) {
      forall m: nat | 0 < m < |stripes| && StartsFrame(stripes, m) ensures WholeFrames(frames, m) {
        StartIsChange(stripes, frames, m);
        forall i, j | 0 <= i < m <= j < |frames| ensures frames[i] != frames[j] {
          NoChangeInside(frames, i, m, j);
        }
      }
    } else {
      var i: nat, j: nat, k: nat :| i < j < k < |frames| && frames[i] == frames[k] && frames[j] != frames[i];
      var m := ChangeBetween(frames, i, j);
      StartIsChange(stripes, frames, m);
      assert !WholeFrames(frames, m);
    }
  }

  // ----- Freshness of JPEG rows

  predicate IsOlder(last: int, id: int) {
    var behindBy := (last - id) % IDS;
    0 < behindBy <= REORDER_WINDOW
  }

  function LastOn(rows: map<nat, int>, y: nat): Option<int> {
    if y in rows then Some(rows[y]) else None
  }

  predicate Stale(rows: map<nat, int>, s: Stripe) {
    s.frameId.Some? && s.startY in rows && IsOlder(rows[s.startY], s.frameId.value)
  }

  function NoteDrawn(rows: map<nat, int>, s: Stripe): map<nat, int> {
    if s.frameId.Some? then rows[s.startY := s.frameId.value] else rows
  }

  /** The stripes of a queue that get drawn, and the rows' last drawn ids afterwards. */
  function Fresh(rows: map<nat, int>, queue: seq<Stripe>): (seq<Stripe>, map<nat, int>)
    decreases |queue|
  {
    if queue == [] then ([], rows)
    else if Stale(rows, queue[0]) then Fresh(rows, queue[1..])
    else
      var (kept, final) := Fresh(NoteDrawn(rows, queue[0]), queue[1..]);
      ([queue[0]] + kept, final)
  }

  lemma {:induction false} FreshSnoc(rows: map<nat, int>, queue: seq<Stripe>, s: Stripe)
    ensures var (kept, mid) := Fresh(rows, queue);
            Fresh(rows, queue + [s]) == if Stale(mid, s) then (kept, mid) else (kept + [s], NoteDrawn(mid, s))
    decreases |queue|
  {
    if queue == [] {
      assert queue + [s] == [s] && [s][1..] == [] && [s] + [] == [] + [s];
    } else {
      assert (queue + [s])[0] == queue[0] && (queue + [s])[1..] == queue[1..] + [s];
      if Stale(rows, queue[0]) {
        FreshSnoc(rows, queue[1..], s);
      } else {
        var next := NoteDrawn(rows, queue[0]);
        FreshSnoc(next, queue[1..], s);
        Regroup([queue[0]], Fresh(next, queue[1..]).0, [s]);
      }
    }
  }

  /** The stripes of one row. */
  function OnRow(queue: seq<Stripe>, y: nat): seq<Stripe> {
    if queue == [] then []
    else (if queue[0].startY == y then [queue[0]] else []) + OnRow(queue[1..], y)
  }

  /** Rows do not influence each other: what a row shows depends on that row's stripes alone. */
  lemma {:induction false} RowsAreIndependent(rows: map<nat, int>, queue: seq<Stripe>, y: nat)
    ensures var (kept, final) := Fresh(rows, queue);
            var alone := if y in rows then map[y := rows[y]] else map[];
            var (keptAlone, finalAlone) := Fresh(alone, OnRow(queue, y));
            OnRow(kept, y) == keptAlone && LastOn(final, y) == LastOn(finalAlone, y)
    decreases |queue|
  {
    if queue != [] {
      var s := queue[0];
      var alone := if y in rows then map[y := rows[y]] else map[];
      var next := if Stale(rows, s) then rows else NoteDrawn(rows, s);
      RowsAreIndependent(next, queue[1..], y);
      if s.startY == y {
        assert OnRow(queue, y)[0] == s && OnRow(queue, y)[1..] == OnRow(queue[1..], y);
        assert Stale(rows, s) == Stale(alone, s);
        if !Stale(rows, s) {
          assert NoteDrawn(alone, s) == if y in next then map[y := next[y]] else map[];
          OnRowCons(s, Fresh(next, queue[1..]).0, y);
        }
      } else {
        assert OnRow(queue, y) == OnRow(queue[1..], y);
        if !Stale(rows, s) {
          OnRowCons(s, Fresh(next, queue[1..]).0, y);
        }
      }
    }
  }

  lemma OnRowCons(s: Stripe, rest: seq<Stripe>, y: nat)
    ensures OnRow([s] + rest, y) == (if s.startY == y then [s] else []) + OnRow(rest, y)
  {
    assert ([s] + rest)[1..] == rest;
  }

  /** True frame number t is at most 256 behind and at most 65279 ahead of the last drawn one. */
  predicate InWindow(last: int, t: int) {
    -REORDER_WINDOW <= t - last < IDS - REORDER_WINDOW
  }

  /** Inside the window the 16-bit test decides correctly: older stripes, and only they, are stale. */
  lemma OlderExactly(last: int, t: int)
    requires InWindow(last, t)
    ensures IsOlder(last % IDS, t % IDS) <==> t < last
  {
    assert (last % IDS - t % IDS) % IDS == (last - t) % IDS by {
      assert last % IDS - t % IDS == (last - t) + IDS * (t / IDS - last / IDS);
      Shift(last - t, t / IDS - last / IDS);
    }
  }

  lemma Shift(x: int, k: int)
    ensures (x + IDS * k) % IDS == x % IDS
  {
  }

  /** Both bounds are tight: one further behind is drawn over newer content, one further ahead is dropped. */
  lemma WindowIsTight(last: int)
    ensures !IsOlder(last % IDS, (last - REORDER_WINDOW - 1) % IDS)
    ensures IsOlder(last % IDS, (last + IDS - REORDER_WINDOW) % IDS)
  {
    OlderExactly(last, last + IDS - REORDER_WINDOW - 1);
    assert (last - REORDER_WINDOW - 1) % IDS == (last + IDS - REORDER_WINDOW - 1) % IDS by {
      Shift(last - REORDER_WINDOW - 1, 1);
    }
    OlderExactly(last, last - REORDER_WINDOW);
    assert (last - REORDER_WINDOW) % IDS == (last + IDS - REORDER_WINDOW) % IDS by {
      Shift(last - REORDER_WINDOW, 1);
    }
  }

  /** Where the test decides correctly: nowhere else on the whole line of frame numbers. */
  lemma OlderRightExactly(last: int, t: int)
    ensures (IsOlder(last % IDS, t % IDS) <==> t < last) <==>
            if t >= last then (t - last) % IDS < IDS - REORDER_WINDOW else 0 < (last - t) % IDS <= REORDER_WINDOW
  {
    assert (last % IDS - t % IDS) % IDS == (last - t) % IDS by {
      assert last % IDS - t % IDS == (last - t) + IDS * (t / IDS - last / IDS);
      Shift(last - t, t / IDS - last / IDS);
    }
    if t > last {
      Opposite(t - last);
    }
  }

  lemma Opposite(d: int)
    ensures (-d) % IDS == if d % IDS == 0 then 0 else IDS - d % IDS
  {
    assert -d == (IDS - d % IDS) + IDS * (-(d / IDS) - 1);
    Shift(IDS - d % IDS, -(d / IDS) - 1);
  }

  /** The newest true frame number on row y: that of what it showed before the queue, or of one in it. */
  function RowTop(before: map<nat, int>, queue: seq<Stripe>, frames: seq<int>, y: nat): Option<int>
    requires |frames| == |queue|
  {
    if queue == [] then LastOn(before, y) else
      var n := |queue| - 1;
      var top := RowTop(before, queue[..n], frames[..n], y);
      if queue[n].startY == y && (top.None? || top.value < frames[n]) then Some(frames[n]) else top
  }

  lemma {:induction false} RowTopIsMax(before: map<nat, int>, queue: seq<Stripe>, frames: seq<int>, y: nat)
    requires |frames| == |queue|
    ensures var top := RowTop(before, queue, frames, y);
            && (y in before ==> top.Some? && before[y] <= top.value)
            && (forall k | 0 <= k < |queue| && queue[k].startY == y :: top.Some? && frames[k] <= top.value)
            && (top.Some? ==> (y in before && top.value == before[y])
                              || exists k | 0 <= k < |queue| :: queue[k].startY == y && frames[k] == top.value)
    decreases |queue|
  {
    if queue != [] {
      var n := |queue| - 1;
      RowTopIsMax(before, queue[..n], frames[..n], y);
      var top := RowTop(before, queue[..n], frames[..n], y);
      assert forall k | 0 <= k < n :: queue[..n][k] == queue[k] && frames[..n][k] == frames[k];
      if top.Some? && !(y in before && top.value == before[y]) {
        var k :| 0 <= k < n && queue[..n][k].startY == y && frames[..n][k] == top.value;
        assert queue[k].startY == y && frames[k] == top.value;
      }
    }
  }

  /** Stripe k carries its true number's id, and that is in the window of the newest on its row so far. */
  ghost predicate InWindowAt(before: map<nat, int>, queue: seq<Stripe>, frames: seq<int>, k: nat)
    requires |frames| == |queue| && k < |queue|
  {
    var top := RowTop(before, queue[..k], frames[..k], queue[k].startY);
    queue[k].frameId == Some(frames[k] % IDS) && (top.Some? ==> InWindow(top.value, frames[k]))
  }

  ghost predicate TrueNumbers(before: map<nat, int>, queue: seq<Stripe>, frames: seq<int>) {
    |frames| == |queue| && forall k: nat | k < |queue| :: InWindowAt(before, queue, frames, k)
  }

  /** Nothing before stripe k on its row is newer than it. */
  predicate UpToDate(before: map<nat, int>, queue: seq<Stripe>, frames: seq<int>, k: nat)
    requires |frames| == |queue| && k < |queue|
  {
    && (queue[k].startY in before ==> before[queue[k].startY] <= frames[k])
    && forall j | 0 <= j < k && queue[j].startY == queue[k].startY :: frames[j] <= frames[k]
  }

  lemma TopDecides(before: map<nat, int>, queue: seq<Stripe>, frames: seq<int>, k: nat)
    requires |frames| == |queue| && k < |queue|
    ensures var top := RowTop(before, queue[..k], frames[..k], queue[k].startY);
            UpToDate(before, queue, frames, k) <==> top.None? || top.value <= frames[k]
  {
    hide RowTop;
    RowTopIsMax(before, queue[..k], frames[..k], queue[k].startY);
    assert forall j | 0 <= j < k :: queue[..k][j] == queue[j] && frames[..k][j] == frames[j];
  }

  /** The stripes nothing newer came before on their row, in order of arrival. */
  function UpToDateOnes(before: map<nat, int>, queue: seq<Stripe>, frames: seq<int>): seq<Stripe>
    requires |frames| == |queue|
  {
    if queue == [] then [] else
      var n := |queue| - 1;
      UpToDateOnes(before, queue[..n], frames[..n])
        + if UpToDate(before, queue, frames, n) then [queue[n]] else []
  }

  ghost predicate SameRows(rows: map<nat, int>, numbers: map<nat, int>) {
    rows.Keys == numbers.Keys && forall y | y in rows :: rows[y] == numbers[y] % IDS
  }

  ghost predicate ShowsTops(rows: map<nat, int>, before: map<nat, int>, queue: seq<Stripe>, frames: seq<int>)
    requires |frames| == |queue|
  {
    forall y: nat :: var top := RowTop(before, queue, frames, y);
      LastOn(rows, y) == if top.None? then None else Some(top.value % IDS)
  }

  lemma TrueNumbersPrefix(before: map<nat, int>, queue: seq<Stripe>, frames: seq<int>, n: nat)
    requires TrueNumbers(before, queue, frames) && n < |queue|
    ensures TrueNumbers(before, queue[..n], frames[..n]) && InWindowAt(before, queue, frames, n)
  {
    hide RowTop, InWindow;
    forall k: nat | k < n ensures InWindowAt(before, queue[..n], frames[..n], k) {
      assert InWindowAt(before, queue, frames, k);
      assert queue[..n][..k] == queue[..k] && frames[..n][..k] == frames[..k];
    }
  }

  /** The stripe after a queue is dropped exactly if something newer came before it on its row. */
  lemma StaleExactly(rows: map<nat, int>, before: map<nat, int>, queue: seq<Stripe>, frames: seq<int>, n: nat)
    requires |frames| == |queue| == n + 1 && InWindowAt(before, queue, frames, n)
    requires ShowsTops(rows, before, queue[..n], frames[..n])
    ensures Stale(rows, queue[n]) <==> !UpToDate(before, queue, frames, n)
  {
    hide RowTop, UpToDate, InWindow, IsOlder;
    var top := RowTop(before, queue[..n], frames[..n], queue[n].startY);
    TopDecides(before, queue, frames, n);
    assert LastOn(rows, queue[n].startY) == if top.None? then None else Some(top.value % IDS);
    if top.Some? {
      OlderExactly(top.value, frames[n]);
    }
  }

  lemma TopsAfter(rows: map<nat, int>, before: map<nat, int>, queue: seq<Stripe>, frames: seq<int>, n: nat)
    requires |frames| == |queue| == n + 1 && queue[n].frameId == Some(frames[n] % IDS)
    requires ShowsTops(rows, before, queue[..n], frames[..n])
    ensures var next := if UpToDate(before, queue, frames, n) then NoteDrawn(rows, queue[n]) else rows;
            ShowsTops(next, before, queue, frames)
  {
    hide UpToDate;
    TopDecides(before, queue, frames, n);
    var next := if UpToDate(before, queue, frames, n) then NoteDrawn(rows, queue[n]) else rows;
    forall y: nat
      ensures var top := RowTop(before, queue, frames, y);
              LastOn(next, y) == if top.None? then None else Some(top.value % IDS)
    {
      var was := RowTop(before, queue[..n], frames[..n], y);
      assert LastOn(rows, y) == if was.None? then None else Some(was.value % IDS);
    }
  }

  lemma TopsAtFirst(rows: map<nat, int>, before: map<nat, int>)
    requires SameRows(rows, before)
    ensures ShowsTops(rows, before, [], [])
  {
  }

  lemma {:induction false} FreshIsUpToDate(rows: map<nat, int>, before: map<nat, int>, queue: seq<Stripe>,
                                           frames: seq<int>)
    requires TrueNumbers(before, queue, frames) && SameRows(rows, before)
    ensures Fresh(rows, queue).0 == UpToDateOnes(before, queue, frames)
    ensures ShowsTops(Fresh(rows, queue).1, before, queue, frames)
    decreases |queue|
  {
    hide UpToDate, RowTop, Stale, InWindow, ShowsTops, SameRows;
    if queue == [] {
      TopsAtFirst(rows, before);
    } else {
      var n := |queue| - 1;
      TrueNumbersPrefix(before, queue, frames, n);
      FreshIsUpToDate(rows, before, queue[..n], frames[..n]);
      var mid := Fresh(rows, queue[..n]).1;
      StaleExactly(mid, before, queue, frames, n);
      TopsAfter(mid, before, queue, frames, n);
      FreshSnoc(rows, queue[..n], queue[n]);
      assert queue == queue[..n] + [queue[n]];
    }
  }

  /** A stripe left out is strictly behind what its row showed before, or behind one drawn before it. */
  lemma DroppedIsBehind(before: map<nat, int>, queue: seq<Stripe>, frames: seq<int>, k: nat)
    requires |frames| == |queue| && k < |queue| && !UpToDate(before, queue, frames, k)
    ensures (queue[k].startY in before && frames[k] < before[queue[k].startY])
         || exists j: nat | j < k :: queue[j].startY == queue[k].startY && frames[k] < frames[j]
                                     && UpToDate(before, queue, frames, j)
  {
    hide RowTop;
    var y := queue[k].startY;
    RowTopIsMax(before, queue[..k], frames[..k], y);
    TopDecides(before, queue, frames, k);
    var top := RowTop(before, queue[..k], frames[..k], y).value;
    assert forall j | 0 <= j < k :: queue[..k][j] == queue[j] && frames[..k][j] == frames[j];
    if !(y in before && frames[k] < before[y]) {
      var j :| 0 <= j < k && queue[..k][j].startY == y && frames[..k][j] == top;
      assert UpToDate(before, queue, frames, j);
    }
  }

  /**
   Row freshness across id wrap, for any mix of rows, drawn on before or not: exactly the stripes
   that nothing newer came before on their row are drawn. So the frames a row draws never go back,
   a stripe is dropped only behind one its row has drawn, and every row ends on the newest of all.
   */
  lemma RowStaysFresh(rows: map<nat, int>, before: map<nat, int>, queue: seq<Stripe>, frames: seq<int>)
    requires TrueNumbers(before, queue, frames) && SameRows(rows, before)
    ensures Fresh(rows, queue).0 == UpToDateOnes(before, queue, frames)
    ensures ShowsTops(Fresh(rows, queue).1, before, queue, frames)
    ensures forall j: nat, k: nat | j < k < |queue| && queue[j].startY == queue[k].startY
              && UpToDate(before, queue, frames, j) && UpToDate(before, queue, frames, k) :: frames[j] <= frames[k]
    ensures forall k: nat | k < |queue| && !UpToDate(before, queue, frames, k) ::
              (queue[k].startY in before && frames[k] < before[queue[k].startY])
              || exists j: nat | j < k :: queue[j].startY == queue[k].startY && frames[k] < frames[j]
                                          && UpToDate(before, queue, frames, j)
  {
    FreshIsUpToDate(rows, before, queue, frames);
    forall k: nat | k < |queue| && !UpToDate(before, queue, frames, k)
      ensures (queue[k].startY in before && frames[k] < before[queue[k].startY])
              || exists j: nat | j < k :: queue[j].startY == queue[k].startY && frames[k] < frames[j]
                                          && UpToDate(before, queue, frames, j)
    {
      DroppedIsBehind(before, queue, frames, k);
    }
  }

  /**
   Late stripes on another row are drawn, so frames can come mixed: ids 5 and 6 on row 0, then 5 and 6
   on row 1, all fresh, put a frame start where half of frame 5 has been drawn with half of frame 6.
   */
  lemma MixedPresentation(pixels: Image)
    ensures var queue := [Stripe(Some(5), 0, pixels), Stripe(Some(6), 0, pixels),
                          Stripe(Some(5), 1, pixels), Stripe(Some(6), 1, pixels)];
            && Fresh(map[], queue).0 == queue
            && StartsFrame(queue, 2) && !WholeFrames([5, 6, 5, 6], 2)
  {
    var a, b := Stripe(Some(5), 0, pixels), Stripe(Some(6), 0, pixels);
    var c, d := Stripe(Some(5), 1, pixels), Stripe(Some(6), 1, pixels);
    NothingYet(map[], None);
    FreshSnoc(map[], [], a);
    FreshSnoc(map[], [a], b);
    FreshSnoc(map[], [a, b], c);
    FreshSnoc(map[], [a, b, c], d);
    assert [] + [a] == [a] && [a] + [b] == [a, b] && [a, b] + [c] == [a, b, c] && [a, b, c] + [d] == [a, b, c, d];
    assert [5, 6, 5, 6][0] == [5, 6, 5, 6][2];
  }

  /** Painting queue after queue decides as painting them all at once. */
  lemma {:induction false} FreshAppend(rows: map<nat, int>, a: seq<Stripe>, b: seq<Stripe>)
    ensures var (kept, mid) := Fresh(rows, a);
            Fresh(rows, a + b) == (kept + Fresh(mid, b).0, Fresh(mid, b).1)
    decreases |b|
  {
    if b == [] {
      assert a + b == a && Fresh(rows, a).0 + [] == Fresh(rows, a).0;
    } else {
      var n := |b| - 1;
      var mid := Fresh(rows, a).1;
      FreshAppend(rows, a, b[..n]);
      FreshSnoc(rows, a + b[..n], b[n]);
      FreshSnoc(mid, b[..n], b[n]);
      assert b == b[..n] + [b[n]] && a + b == (a + b[..n]) + [b[n]];
      Regroup(Fresh(rows, a).0, Fresh(mid, b[..n]).0, [b[n]]);
    }
  }

  /** Stripes without an id count as belonging to the frame in progress. */
  function Noted(pending: Option<int>, stripes: seq<Stripe>): (r: seq<Stripe>)
    ensures (forall k :: 0 <= k < |stripes| ==> stripes[k].frameId.Some?) ==> r == stripes
    decreases |stripes|
  {
    if stripes == [] then [] else
      var id := if stripes[0].frameId.Some? then stripes[0].frameId else pending;
      [stripes[0].(frameId := id)] + Noted(id, stripes[1..])
  }

  /** Noting changes nothing but absent ids, and a stripe without one never starts a frame. */
  lemma {:induction false} NotedAt(pending: Option<int>, stripes: seq<Stripe>, k: nat)
    requires k < |stripes|
    ensures |Noted(pending, stripes)| == |stripes|
    ensures Noted(pending, stripes)[k] == stripes[k].(frameId := Noted(pending, stripes)[k].frameId)
    ensures stripes[k].frameId.Some? ==> Noted(pending, stripes)[k] == stripes[k]
    ensures stripes[k].frameId.None? && k > 0 ==> !StartsFrame(Noted(pending, stripes), k)
    ensures stripes[k].frameId.None? && k == 0 ==> Noted(pending, stripes)[0].frameId == pending
    decreases |stripes|
  {
    var id := if stripes[0].frameId.Some? then stripes[0].frameId else pending;
    if k > 0 {
      NotedAt(id, stripes[1..], k - 1);
    } else if |stripes| > 1 {
      NotedAt(id, stripes[1..], 0);
    }
  }

  function PendingAfter(pending: Option<int>, stripes: seq<Stripe>): Option<int> {
    if stripes == [] then pending
    else if stripes[|stripes| - 1].frameId.Some? then stripes[|stripes| - 1].frameId
    else PendingAfter(pending, stripes[..|stripes| - 1])
  }

  lemma {:induction false} NotedSnoc(pending: Option<int>, stripes: seq<Stripe>, s: Stripe)
    ensures var id := if s.frameId.Some? then s.frameId else PendingAfter(pending, stripes);
            && Noted(pending, stripes + [s]) == Noted(pending, stripes) + [s.(frameId := id)]
            && PendingAfter(pending, stripes + [s]) == id
    decreases |stripes|
  {
    assert (stripes + [s])[..|stripes|] == stripes;
    if stripes == [] {
      assert stripes + [s] == [s] && [s][1..] == [];
    } else {
      var first := stripes[0];
      var id := if first.frameId.Some? then first.frameId else pending;
      assert (stripes + [s])[0] == first && (stripes + [s])[1..] == stripes[1..] + [s];
      NotedSnoc(id, stripes[1..], s);
      PendingTail(pending, stripes);
    }
  }

  lemma {:induction false} PendingTail(pending: Option<int>, stripes: seq<Stripe>)
    requires stripes != []
    ensures PendingAfter(pending, stripes) ==
            PendingAfter(if stripes[0].frameId.Some? then stripes[0].frameId else pending, stripes[1..])
    decreases |stripes|
  {
    var n := |stripes| - 1;
    if n > 0 && stripes[n].frameId.None? {
      PendingTail(pending, stripes[..n]);
      assert stripes[..n][1..] == stripes[1..][..n - 1];
    } else if n == 0 {
      assert stripes[..0] == [] && stripes[1..] == [];
    }
  }

  lemma NothingYet(rows: map<nat, int>, pending: Option<int>)
    ensures Flatten<Stripe>([]) == [] && Fresh(rows, []) == ([], rows)
    ensures Noted(pending, []) == [] && PendingAfter(pending, []) == pending
  {
  }

  lemma {:induction false} NotedAppend(pending: Option<int>, a: seq<Stripe>, b: seq<Stripe>)
    ensures Noted(pending, a + b) == Noted(pending, a) + Noted(PendingAfter(pending, a), b)
    ensures PendingAfter(pending, a + b) == PendingAfter(PendingAfter(pending, a), b)
    decreases |b|
  {
    if b == [] {
      assert a + b == a && Noted(pending, a) + [] == Noted(pending, a);
    } else {
      var n := |b| - 1;
      var mid := PendingAfter(pending, a);
      NotedAppend(pending, a, b[..n]);
      NotedSnoc(pending, a + b[..n], b[n]);
      NotedSnoc(mid, b[..n], b[n]);
      assert b == b[..n] + [b[n]] && a + b == (a + b[..n]) + [b[n]];
      var id := if b[n].frameId.Some? then b[n].frameId else PendingAfter(mid, b[..n]);
      Regroup(Noted(pending, a), Noted(mid, b[..n]), [b[n].(frameId := id)]);
    }
  }

  lemma {:induction false} KeptHaveIds(before: map<nat, int>, queue: seq<Stripe>, frames: seq<int>)
    requires TrueNumbers(before, queue, frames)
    ensures forall k | 0 <= k < |UpToDateOnes(before, queue, frames)| ::
              UpToDateOnes(before, queue, frames)[k].frameId.Some?
    decreases |queue|
  {
    hide RowTop, InWindow, UpToDate;
    if queue != [] {
      TrueNumbersPrefix(before, queue, frames, |queue| - 1);
      KeptHaveIds(before, queue[..|queue| - 1], frames[..|queue| - 1]);
    }
  }

  // ----- The compositor

  class Compositor {
    const canvasHasSize: bool
    var visible: Image
    var back: Image
    var pendingId: Option<int>
    var dirty: bool
    var lastDrawnRow: map<nat, int>

    ghost var drawn: seq<Stripe>     // stripes drawn, an absent id replaced by the pending one
    ghost var shown: nat             // how many of them the visible canvas shows
    ghost var closed: seq<Stripe>    // decoded frames released

    ghost predicate Valid()
      reads this
    {
      && Pictured()
      && (drawn == [] ==> pendingId == None)
      && (drawn != [] ==> pendingId == drawn[|drawn| - 1].frameId)
    }

    constructor (canvasHasSize: bool)
      ensures Valid() && drawn == [] && closed == [] && this.canvasHasSize == canvasHasSize && lastDrawnRow == map[]
    {
      this.canvasHasSize := canvasHasSize;
      visible, back, pendingId, dirty, lastDrawnRow := BLANK, BLANK, None, false, map[];
      drawn, shown, closed := [], 0, [];
    }

    /** Copy the back buffer to the visible canvas. */
    method Blit()
      requires Valid()
      modifies this`visible, this`dirty, this`shown
      ensures Valid() && shown == |drawn| && visible == Picture(drawn)
    {
      BlitLater(drawn, shown);
      assert drawn[..|drawn|] == drawn;
      visible := visible + back;
      dirty := false;
      shown := |drawn|;
    }

    /** Draw one stripe into the back buffer, presenting the finished frame first. */
    method DrawStripe(s: Stripe)
      requires Valid() && canvasHasSize
      modifies this`visible, this`back, this`dirty, this`pendingId, this`drawn, this`shown
      ensures Valid()
      ensures drawn == old(drawn) + [s.(frameId := if s.frameId.Some? then s.frameId else old(pendingId))]
      ensures back == Picture(drawn) && ShowsLast(back, drawn)
      ensures shown ==
                if old(shown) < |old(drawn)| && StartsFrame(drawn, |old(drawn)|) then |old(drawn)| else old(shown)
    {
      if s.frameId.Some? && pendingId != None && s.frameId != pendingId && dirty {
        Blit();
      }
      if s.frameId.Some? {
        pendingId := s.frameId;
      }
      AppendDrawn(s);
      PictureShowsLast(drawn);
    }

    ghost predicate Pictured()
      reads this
    {
      && back == Picture(drawn)
      && shown <= |drawn|
      && visible == Picture(drawn[..shown])
      && (dirty <==> shown < |drawn|)
      && NoStartAfter(drawn, shown)
    }

    method AppendDrawn(s: Stripe)
      requires Pictured()
      requires shown < |drawn| ==> !StartsFrame(drawn + [s.(frameId := pendingId)], |drawn|)
      modifies this`back, this`dirty, this`drawn
      ensures Pictured() && drawn == old(drawn) + [s.(frameId := pendingId)]
    {
      ghost var noted := s.(frameId := pendingId);
      PictureSnoc(drawn, noted);
      NoStartSnoc(drawn, noted, shown);
      assert (drawn + [noted])[..shown] == drawn[..shown];
      back := Draw(back, s);
      drawn := drawn + [noted];
      dirty := true;
    }

    /**
     One tick of the striped H.264 path. Afterwards the visible canvas is the direct drawing of
     all stripes up to the last frame start, or of everything if the tick brought nothing.
     */
    method PaintStriped(queue: seq<Stripe>)
      requires Valid() && forall k :: 0 <= k < |queue| ==> queue[k].frameId.Some?
      modifies this
      ensures Valid() && closed == old(closed) + queue && lastDrawnRow == old(lastDrawnRow)
      ensures ShowsLast(visible, drawn[..shown])
      ensures drawn == old(drawn) + if canvasHasSize then queue else []
      ensures canvasHasSize ==> shown == if queue == [] then |drawn| else LastStart(drawn, old(shown))
    {
      if canvasHasSize {
        DrawQueue(queue);
      } else {
        CloseUndrawn(queue);
      }
      if queue == [] && dirty && canvasHasSize {
        Blit();
      }
      PictureShowsLast(drawn[..shown]);
    }

    /** With nowhere to draw, every frame is still released. */
    method CloseUndrawn(queue: seq<Stripe>)
      modifies this`closed
      ensures closed == old(closed) + queue
    {
      var i := 0;
      while i < |queue|
        invariant 0 <= i <= |queue| && closed == old(closed) + queue[..i]
      {
        PrefixSnoc(queue, i);
        Regroup(old(closed), queue[..i], [queue[i]]);
        closed := closed + [queue[i]];
        i := i + 1;
      }
      assert queue[..|queue|] == queue;
    }

    method DrawQueue(queue: seq<Stripe>)
      requires Valid() && canvasHasSize && forall k :: 0 <= k < |queue| ==> queue[k].frameId.Some?
      modifies this`visible, this`back, this`dirty, this`pendingId, this`drawn, this`shown, this`closed
      ensures Valid() && drawn == old(drawn) + queue && closed == old(closed) + queue
      ensures shown == LastStart(drawn, old(shown))
    {
      hide Picture;
      var i := 0;
      while i < |queue|
        invariant 0 <= i <= |queue| && Valid()
        invariant drawn == old(drawn) + queue[..i] && closed == old(closed) + queue[..i]
        invariant old(shown) <= shown
        invariant shown == old(shown) || (0 < shown < |drawn| && StartsFrame(drawn, shown))
      {
        DrawOne(queue[i], old(shown));
        PrefixSnoc(queue, i);
        Regroup(old(drawn), queue[..i], [queue[i]]);
        Regroup(old(closed), queue[..i], [queue[i]]);
        i := i + 1;
      }
      assert queue[..|queue|] == queue;
      LastStartUnique(drawn, old(shown), shown);
    }

    /** One stripe of the queue: drawn and released. */
    method DrawOne(s: Stripe, ghost shown0: nat)
      requires Valid() && canvasHasSize && s.frameId.Some? && shown0 <= shown
      requires shown == shown0 || (0 < shown < |drawn| && StartsFrame(drawn, shown))
      modifies this`visible, this`back, this`dirty, this`pendingId, this`drawn, this`shown, this`closed
      ensures Valid() && drawn == old(drawn) + [s] && closed == old(closed) + [s] && shown0 <= shown
      ensures shown == shown0 || (0 < shown < |drawn| && StartsFrame(drawn, shown))
    {
      hide Picture;
      ghost var before, m := drawn, shown;
      DrawStripe(s);
      closed := closed + [s];
      if 0 < m < |before| {
        StartsSnoc(before, s, m);
      }
    }

    /**
     One tick of the JPEG path: only fresh stripes are drawn, every image is released, and the
     visible canvas again stops at the last frame start, or catches up when nothing arrived.
     */
    method PaintJpeg(queue: seq<Stripe>)
      requires Valid()
      modifies this
      ensures Valid() && closed == old(closed) + queue
      ensures ShowsLast(visible, drawn[..shown])
      ensures lastDrawnRow == Fresh(old(lastDrawnRow), queue).1
      ensures drawn == old(drawn) +
                if canvasHasSize then Noted(old(pendingId), Fresh(old(lastDrawnRow), queue).0) else []
      ensures canvasHasSize ==> pendingId == PendingAfter(old(pendingId), Fresh(old(lastDrawnRow), queue).0)
      ensures canvasHasSize ==> shown == if queue == [] then |drawn| else LastStart(drawn, old(shown))
    {
      hide Picture, StartsFrame, Stale, Draw, ShowsLast;
      if queue == [] {
        if dirty && canvasHasSize {
          Blit();
        }
        PictureShowsLast(drawn[..shown]);
        return;
      }
      ghost var kept := [];
      var i := 0;
      while i < |queue|
        invariant 0 <= i <= |queue| && Valid()
        invariant (kept, lastDrawnRow) == Fresh(old(lastDrawnRow), queue[..i])
        invariant closed == old(closed) + queue[..i]
        invariant drawn == old(drawn) + if canvasHasSize then Noted(old(pendingId), kept) else []
        invariant canvasHasSize ==> pendingId == PendingAfter(old(pendingId), kept)
        invariant old(shown) <= shown
        invariant shown == old(shown) || (0 < shown < |drawn| && StartsFrame(drawn, shown))
      {
        PrefixSnoc(queue, i);
        FreshSnoc(old(lastDrawnRow), queue[..i], queue[i]);
        Regroup(old(closed), queue[..i], [queue[i]]);
        NotedSnoc(old(pendingId), kept, queue[i]);
        var stale := PaintSegment(queue[i], old(shown));
        if !stale {
          ghost var id := PendingAfter(old(pendingId), kept + [queue[i]]);
          Regroup(old(drawn), Noted(old(pendingId), kept), [queue[i].(frameId := id)]);
          kept := kept + [queue[i]];
        }
        i := i + 1;
      }
      assert queue[..|queue|] == queue;
      LastStartUnique(drawn, old(shown), shown);
      PictureShowsLast(drawn[..shown]);
    }

    /** Any number of JPEG ticks draw what one tick with everything queued would have drawn. */
    method PaintJpegTicks(queues: seq<seq<Stripe>>)
      requires Valid()
      modifies this
      ensures Valid() && closed == old(closed) + Flatten(queues)
      ensures lastDrawnRow == Fresh(old(lastDrawnRow), Flatten(queues)).1
      ensures drawn == old(drawn) +
                if canvasHasSize then Noted(old(pendingId), Fresh(old(lastDrawnRow), Flatten(queues)).0) else []
    {
      hide Picture, StartsFrame, Stale, Draw, Fresh, Noted, PendingAfter, Flatten;
      NothingYet(lastDrawnRow, pendingId);
      var i := 0;
      while i < |queues|
        invariant 0 <= i <= |queues| && Valid()
        invariant closed == old(closed) + Flatten(queues[..i])
        invariant lastDrawnRow == Fresh(old(lastDrawnRow), Flatten(queues[..i])).1
        invariant drawn == old(drawn) +
                    if !canvasHasSize then []
                    else Noted(old(pendingId), Fresh(old(lastDrawnRow), Flatten(queues[..i])).0)
        invariant canvasHasSize ==>
                    pendingId == PendingAfter(old(pendingId), Fresh(old(lastDrawnRow), Flatten(queues[..i])).0)
      {
        ghost var soFar := Flatten(queues[..i]);
        ghost var kept, more := Fresh(old(lastDrawnRow), soFar).0, Fresh(lastDrawnRow, queues[i]).0;
        PrefixSnoc(queues, i);
        FlattenSnoc(queues[..i], queues[i]);
        FreshAppend(old(lastDrawnRow), soFar, queues[i]);
        NotedAppend(old(pendingId), kept, more);
        Regroup(old(closed), soFar, queues[i]);
        Regroup(old(drawn), Noted(old(pendingId), kept), Noted(PendingAfter(old(pendingId), kept), more));
        PaintJpeg(queues[i]);
        i := i + 1;
      }
      assert queues[..|queues|] == queues;
    }

    /**
     Over any number of ticks whose stripes stay within the reorder window of their true frame
     numbers, the canvas receives exactly the stripes nothing newer came before on their row.
     */
    method PaintJpegInWindow(queues: seq<seq<Stripe>>, ghost before: map<nat, int>, ghost frames: seq<int>)
      requires Valid() && SameRows(lastDrawnRow, before) && TrueNumbers(before, Flatten(queues), frames)
      modifies this
      ensures Valid() && closed == old(closed) + Flatten(queues) && ShowsLast(visible, drawn[..shown])
      ensures canvasHasSize ==> drawn == old(drawn) + UpToDateOnes(before, Flatten(queues), frames)
      ensures ShowsTops(lastDrawnRow, before, Flatten(queues), frames)
    {
      hide Picture, StartsFrame, Stale, Fresh, Flatten, ShowsTops, UpToDateOnes, ShowsLast;
      FreshIsUpToDate(lastDrawnRow, before, Flatten(queues), frames);
      KeptHaveIds(before, Flatten(queues), frames);
      PaintJpegTicks(queues);
      PictureShowsLast(drawn[..shown]);
    }

    /** One decoded JPEG segment: skipped when stale, otherwise drawn and noted; released either way. */
    method PaintSegment(s: Stripe, ghost shown0: nat) returns (stale: bool)
      requires Valid() && shown0 <= shown
      requires shown == shown0 || (0 < shown < |drawn| && StartsFrame(drawn, shown))
      modifies this
      ensures Valid() && closed == old(closed) + [s] && stale == Stale(old(lastDrawnRow), s)
      ensures lastDrawnRow == if stale then old(lastDrawnRow) else NoteDrawn(old(lastDrawnRow), s)
      ensures var id := if s.frameId.Some? then s.frameId else old(pendingId);
              if stale || !canvasHasSize then drawn == old(drawn) && pendingId == old(pendingId)
              else drawn == old(drawn) + [s.(frameId := id)] && pendingId == id
      ensures shown0 <= shown
      ensures shown == shown0 || (0 < shown < |drawn| && StartsFrame(drawn, shown))
    {
      hide Picture;
      if s.frameId.Some? && s.startY in lastDrawnRow {
        var behindBy := (lastDrawnRow[s.startY] - s.frameId.value) % IDS;
        if 0 < behindBy <= REORDER_WINDOW {
          closed := closed + [s];
          return true;
        }
      }
      if canvasHasSize {
        ghost var before, m, noted := drawn, shown, s.(frameId := if s.frameId.Some? then s.frameId else pendingId);
        DrawStripe(s);
        if 0 < m < |before| {
          StartsSnoc(before, noted, m);
        }
      }
      if s.frameId.Some? {
        lastDrawnRow := lastDrawnRow[s.startY := s.frameId.value];
      }
      closed := closed + [s];
      return false;
    }
  }
}
