/** Keeping a window of every frame of an endless sample stream, as the PCI9111 and PCI9118
    drivers do. */
module Decimation {
  import opened Cyclic

  type sampl = bv16

  /** The samples of `raw` whose position in the repeating frame lies in [lo, hi), the first being
      at position `pos`. */
  function Keep(raw: seq<sampl>, pos: nat, frame: nat, lo: nat, hi: nat): (kept: seq<sampl>)
    requires pos < frame
    ensures |kept| <= |raw|
  {
    if raw == [] then []
    else
      (if lo <= pos < hi then [raw[0]] else []) + Keep(raw[1..], Cell(pos + 1, frame), frame, lo, hi)
  }

  /** Where the stream is cut makes no difference. */
  lemma {:induction false} KeepOfConcat(a: seq<sampl>, b: seq<sampl>, pos: nat, frame: nat, lo: nat, hi: nat)
    requires pos < frame
    ensures Keep(a + b, pos, frame, lo, hi)
         == Keep(a, pos, frame, lo, hi) + Keep(b, Cell(pos + |a|, frame), frame, lo, hi)
  {
    hide Cell;
    if a == [] {
      assert a + b == b;
      CellOfSmall(pos, frame);
    } else {
      assert (a + b)[1..] == a[1..] + b;
      CellOfSum(pos + 1, |a| - 1, frame);
      KeepOfConcat(a[1..], b, Cell(pos + 1, frame), frame, lo, hi);
    }
  }

  lemma CellOfSmall(p: nat, n: nat)
    requires p < n
    ensures Cell(p, n) == p && Cell(n, n) == 0
  {
  }

  /** A stretch that stays inside the window is kept whole, one that stays outside is dropped. */
  lemma {:induction false} KeepStretch(s: seq<sampl>, pos: nat, frame: nat, lo: nat, hi: nat)
    requires pos < frame && pos + |s| <= frame
    ensures lo <= pos && pos + |s| <= hi ==> Keep(s, pos, frame, lo, hi) == s
    ensures pos + |s| <= lo || hi <= pos ==> Keep(s, pos, frame, lo, hi) == []
  {
    if |s| > 1 {
      CellOfSmall(pos + 1, frame);
      KeepStretch(s[1..], pos + 1, frame, lo, hi);
    } else if |s| == 1 {
      assert s[1..] == [];
    }
  }

  /** One whole frame yields its window. */
  lemma KeepFrame(s: seq<sampl>, frame: nat, lo: nat, hi: nat)
    requires |s| == frame > 0 && lo <= hi <= frame
    ensures Keep(s, 0, frame, lo, hi) == s[lo..hi]
  {
    hide Cell;
    if lo == frame {
      KeepStretch(s, 0, frame, lo, hi);
    } else {
      assert s == s[..lo] + s[lo..];
      CellOfSmall(lo, frame);
      KeepOfConcat(s[..lo], s[lo..], 0, frame, lo, hi);
      KeepStretch(s[..lo], 0, frame, lo, hi);
      WindowThenRest(s[lo..hi], s[hi..], frame, lo, hi);
      assert s[lo..] == s[lo..hi] + s[hi..];
    }
  }

  lemma WindowThenRest(window: seq<sampl>, back: seq<sampl>, frame: nat, lo: nat, hi: nat)
    requires lo < frame && lo + |window| == hi && hi + |back| == frame
    ensures Keep(window + back, lo, frame, lo, hi) == window
  {
    hide Cell;
    KeepOfConcat(window, back, lo, frame, lo, hi);
    KeepStretch(window, lo, frame, lo, hi);
    if hi < frame {
      CellOfSmall(hi, frame);
      KeepStretch(back, hi, frame, lo, hi);
    }
  }

  /** Raw sample `lo + r` of frame `f` is exactly where the kept stream has it. */
  lemma {:induction false} KeptSample(raw: seq<sampl>, frame: nat, lo: nat, hi: nat, f: nat, r: nat)
    requires lo <= hi <= frame && r < hi - lo && frame > 0
    requires f * frame + lo + r < |raw|
    ensures var at := f * (hi - lo) + r;
      at < |Keep(raw, 0, frame, lo, hi)| && Keep(raw, 0, frame, lo, hi)[at] == raw[f * frame + lo + r]
  {
    hide Cell, Keep;
    if f == 0 {
      FirstWindow(raw[..lo], raw[lo..lo + r + 1], raw[lo + r + 1..], frame, lo, hi);
      assert raw == raw[..lo] + (raw[lo..lo + r + 1] + raw[lo + r + 1..]);
    } else {
      FrameOnward(f, frame, hi - lo);
      PeelFrame(raw, frame, lo, hi);
      KeptSample(raw[frame..], frame, lo, hi, f - 1, r);
      Shifted(raw, frame, (f - 1) * frame + lo + r);
      Appended(raw[lo..hi], Keep(raw[frame..], 0, frame, lo, hi), (f - 1) * (hi - lo) + r);
    }
  }

  lemma Shifted(raw: seq<sampl>, frame: nat, i: nat)
    requires frame + i < |raw|
    ensures raw[frame..][i] == raw[frame + i]
  {
  }

  lemma Appended(a: seq<sampl>, b: seq<sampl>, i: nat)
    requires i < |b|
    ensures (a + b)[|a| + i] == b[i]
  {
  }

  lemma PeelFrame(raw: seq<sampl>, frame: nat, lo: nat, hi: nat)
    requires lo <= hi <= frame <= |raw| && frame > 0
    ensures Keep(raw, 0, frame, lo, hi) == raw[lo..hi] + Keep(raw[frame..], 0, frame, lo, hi)
  {
    hide Cell;
    CellOfSmall(0, frame);
    assert raw == raw[..frame] + raw[frame..];
    KeepOfConcat(raw[..frame], raw[frame..], 0, frame, lo, hi);
    KeepFrame(raw[..frame], frame, lo, hi);
    assert raw[..frame][lo..hi] == raw[lo..hi];
  }

  lemma FirstWindow(a: seq<sampl>, b: seq<sampl>, c: seq<sampl>, frame: nat, lo: nat, hi: nat)
    requires |a| == lo && 0 < |b| && lo + |b| <= hi <= frame
    ensures b <= Keep(a + (b + c), 0, frame, lo, hi)
  {
    hide Cell;
    CellOfSmall(lo, frame);
    KeepOfConcat(a, b + c, 0, frame, lo, hi);
    KeepStretch(a, 0, frame, lo, hi);
    KeepOfConcat(b, c, lo, frame, lo, hi);
    KeepStretch(b, lo, frame, lo, hi);
  }

  lemma FrameOnward(f: nat, frame: nat, w: nat)
    requires f > 0
    ensures f * frame == frame + (f - 1) * frame && (f - 1) * frame >= 0
    ensures f * w == w + (f - 1) * w && (f - 1) * w >= 0
  {
  }

  /** Whole frames yield whole windows. */
  lemma {:induction false} KeptLength(raw: seq<sampl>, frame: nat, lo: nat, hi: nat, f: nat)
    requires lo <= hi <= frame && frame > 0 && |raw| == f * frame
    ensures |Keep(raw, 0, frame, lo, hi)| == f * (hi - lo)
  {
    hide Cell;
    if f > 0 {
      FrameOnward(f, frame, hi - lo);
      PeelFrame(raw, frame, lo, hi);
      KeptLength(raw[frame..], frame, lo, hi, f - 1);
    }
  }
}
