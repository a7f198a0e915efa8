/**
 Where each browser window goes and which page each job scrapes: the
 window geometry of `get_driver` and the job enumeration of the main
 program. Job `i` of the page range gets window slot `i % 3`; slot `k`
 puts its window in quadrant `k % 4` of a 2560x1440 monitor.
 */
module Layout {

  const MonitorWidth: int := 2560
  const MonitorHeight: int := 1440

  /** `max_workers` of the pool, and the modulus of the slot numbering. */
  const PoolSize: int := 3

  /** The page range the main program scrapes, both ends included. */
  const FirstPage: int := 44
  const MaxPages: int := 70

  /** `MONITOR_WIDTH // 2` and `MONITOR_HEIGHT // 2`. */
  const WindowWidth: int := MonitorWidth / 2
  const WindowHeight: int := MonitorHeight / 2

  /** A window placed on the monitor: top-left corner and size. */
  datatype Window = Window(x: int, y: int, width: int, height: int)

  /** The `positions` list of `get_driver`: the four quadrants. */
  const Positions: seq<(int, int)> :=
    [(0, 0), (WindowWidth, 0), (0, WindowHeight), (WindowWidth, WindowHeight)]

  /** The window `get_driver(window_index)` opens. Python's `%` rounds toward
      negative infinity and Dafny's is Euclidean; with the positive divisor 4
      both give a result in 0..3, so any integer index is accepted. */
  function WindowFor(windowIndex: int): (w: Window)
    ensures w.width == 1280 && w.height == 720
    ensures 0 <= w.x && w.x + w.width <= MonitorWidth
    ensures 0 <= w.y && w.y + w.height <= MonitorHeight
  {
    var (x, y) := Positions[windowIndex % 4];
    Window(x, y, WindowWidth, WindowHeight)
  }

  /** Pixel (px, py) lies in window `w`. */
  predicate Contains(w: Window, px: int, py: int) {
    w.x <= px < w.x + w.width && w.y <= py < w.y + w.height
  }

  /** The quadrant a pixel of the monitor falls in. */
  function QuadrantOf(px: int, py: int): (k: int)
    ensures 0 <= k < 4
  {
    (if px < WindowWidth then 0 else 1) + (if py < WindowHeight then 0 else 2)
  }

  /** The four windows tile the monitor: every pixel lies in the window of
      exactly one quadrant, so windows of different slots modulo 4 never
      overlap. */
  lemma WindowsTileMonitor(windowIndex: int, px: int, py: int)
    requires 0 <= px < MonitorWidth && 0 <= py < MonitorHeight
    ensures Contains(WindowFor(windowIndex), px, py) <==> windowIndex % 4 == QuadrantOf(px, py)
  {
  }

  /** Windows of slots that differ modulo 4 share no pixel. */
  lemma DistinctQuadrantsDisjoint(i: int, j: int, px: int, py: int)
    requires i % 4 != j % 4
    ensures !(Contains(WindowFor(i), px, py) && Contains(WindowFor(j), px, py))
  {
    if Contains(WindowFor(i), px, py) {
      WindowsTileMonitor(i, px, py);
      WindowsTileMonitor(j, px, py);
    }
  }

  /** One pool job: a listing page and the window slot it runs in. */
  datatype Job = Job(page: int, slot: int)

  /** `enumerate(range(first, last + 1))` with slot `i % 3` for the `i`-th page. */
  function Jobs(first: int, last: int): (jobs: seq<Job>)
    ensures |jobs| == if first <= last then last - first + 1 else 0
    ensures forall i :: 0 <= i < |jobs| ==> jobs[i].page == first + i && jobs[i].slot == i % PoolSize
  {
    if last < first then [] else seq(last - first + 1, i => Job(first + i, i % PoolSize))
  }

  /** Exactly one job per page of the inclusive range, in page order. */
  lemma JobsCoverRangeOnce(first: int, last: int, page: int)
    ensures (first <= page <= last) <==> exists i :: 0 <= i < |Jobs(first, last)| && Jobs(first, last)[i].page == page
    ensures forall i, j :: 0 <= i < j < |Jobs(first, last)| ==> Jobs(first, last)[i].page < Jobs(first, last)[j].page
  {
    var jobs := Jobs(first, last);
    if first <= page <= last {
      assert jobs[page - first].page == page;
    }
  }

  /** Slots count 0, 1, 2 and start again: the first job has slot 0 and each
      next job the following slot modulo 3, so any three consecutive jobs use
      three different slots. With three slots the bottom-right quadrant,
      position 3 of the four, is never used. */
  lemma SlotsCycle(first: int, last: int)
    ensures forall i :: 0 <= i < |Jobs(first, last)| ==> 0 <= Jobs(first, last)[i].slot < PoolSize
    ensures |Jobs(first, last)| > 0 ==> Jobs(first, last)[0].slot == 0
    ensures forall i :: 0 <= i < |Jobs(first, last)| - 1 ==>
      Jobs(first, last)[i + 1].slot == (Jobs(first, last)[i].slot + 1) % PoolSize
    ensures forall i :: 0 <= i < |Jobs(first, last)| ==> Jobs(first, last)[i].slot % 4 != 3
  {
  }

  /** Jobs at most two apart run in windows that share no pixel. */
  lemma NearbyJobsDoNotOverlap(first: int, last: int, i: int, j: int, px: int, py: int)
    requires 0 <= i < j < |Jobs(first, last)| && j - i < PoolSize
    ensures !(Contains(WindowFor(Jobs(first, last)[i].slot), px, py)
           && Contains(WindowFor(Jobs(first, last)[j].slot), px, py))
  {
    var jobs := Jobs(first, last);
    assert jobs[i].slot == i % 3 && jobs[j].slot == j % 3;
    assert i % 3 != j % 3;
    DistinctQuadrantsDisjoint(jobs[i].slot, jobs[j].slot, px, py);
  }

  /** Seven jobs get the slots 0, 1, 2, 0, 1, 2, 0; the scraped range 44..70
      makes 27 jobs. */
  lemma JobExamples()
    ensures |Jobs(1, 7)| == 7
    ensures seq(7, i requires 0 <= i < 7 => Jobs(1, 7)[i].slot) == [0, 1, 2, 0, 1, 2, 0]
    ensures |Jobs(FirstPage, MaxPages)| == 27
    ensures Jobs(FirstPage, MaxPages)[26].page == 70 && Jobs(FirstPage, MaxPages)[26].slot == 2
  {
  }
}
