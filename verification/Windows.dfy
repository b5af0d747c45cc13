/** How far the window that the peer advertised lets the sender go. */
module SendWindows {
  import opened Types
  import opened WrappingIntegers
  import opened TcpSegments
  import opened Sending
  import opened SenderTheorems
  import Streams

  /** Up to `edge`, and no further: `s'` has sent what was buffered in `s`, as far as it fits
      below `edge`, and the FIN if the input has ended and there is room for it as well. */
  predicate FillsUpTo(s: Sender, s': Sender, edge: int) {
    var room := Max(0, edge - s.next);
    var n := Min(Streams.Size(s.stream), room);
    var fin := s.stream.ended && Streams.Size(s.stream) < room;
    && s'.stream == s.stream.(read := s.stream.read + n)
    && s'.finSent == fin
    && s'.next == s.next + n + (if fin then 1 else 0)
  }

  lemma DataFills(s: Sender, len: nat)
    requires !s.finSent && len == PayloadSize(s) && 0 < len && s.next < s.acked + s.window
    ensures var (s1, stop) := FillStep(s); var room := s.acked + s.window - s.next;
      && len <= room && len <= Streams.Size(s.stream)
      && s1.stream == s.stream.(read := s.stream.read + len)
      && stop == s1.finSent == (s.stream.ended && len == Streams.Size(s.stream) && len < room)
      && s1.next == s.next + len + (if stop then 1 else 0)
      && s1.acked == s.acked && s1.window == s.window
  {
    hide InsertByTime, Wrap;
  }

  lemma FinFills(s: Sender)
    requires !s.finSent && PayloadSize(s) == 0 && s.next < s.acked + s.window
    ensures var (s1, stop) := FillStep(s);
      stop && FillsUpTo(s, s1, s.acked + s.window)
      && s1.acked == s.acked && s1.window == s.window && s1.zeroWindow == s.zeroWindow
  {
    hide InsertByTime, Wrap;
  }

  lemma {:induction false} LoopFills(s: Sender)
    requires !s.finSent
    ensures FillsUpTo(s, FillLoop(s), s.acked + s.window)
    ensures FillLoop(s).acked == s.acked && FillLoop(s).window == s.window && FillLoop(s).zeroWindow == s.zeroWindow
    decreases s.acked + s.window - s.next
  {
    hide FillStep;
    if s.next < s.acked + s.window && PayloadSize(s) == 0 {
      FinFills(s);
    } else if s.next < s.acked + s.window {
      DataFills(s, PayloadSize(s));
      StepKeepsFlag(s);
      var (s1, stop) := FillStep(s);
      if !stop { LoopFills(s1); }
    }
  }

  lemma StepKeepsFlag(s: Sender)
    requires s.next < s.acked + s.window
    ensures FillStep(s).0.zeroWindow == s.zeroWindow
  {
    hide InsertByTime, Wrap;
  }

  /** All but the last of the new segments carry a full 1000 bytes. */
  predicate Full(out: seq<TCPSegment>, from: nat) {
    forall i :: from <= i < |out| - 1 ==> |out[i].payload| == 1000
  }

  lemma StepQueues(s: Sender)
    requires !s.finSent && s.next < s.acked + s.window
    ensures var (s1, stop) := FillStep(s);
      && s.out <= s1.out && |s1.out| <= |s.out| + 1
      && (!stop ==> |s1.out| == |s.out| + 1 && |s1.out[|s.out|].payload| == PayloadSize(s))
      && (!stop && PayloadSize(s) < 1000 ==> s1.next >= s1.acked + s1.window || (Streams.Size(s1.stream) == 0 && !s1.stream.ended))
  {
    hide InsertByTime, Wrap;
  }

  lemma NothingMore(s: Sender)
    requires !s.finSent && (s.next >= s.acked + s.window || (Streams.Size(s.stream) == 0 && !s.stream.ended))
    ensures FillLoop(s) == s
  {
  }

  lemma {:induction false} LoopFull(s: Sender)
    requires !s.finSent
    ensures s.out <= FillLoop(s).out && Full(FillLoop(s).out, |s.out|)
    decreases s.acked + s.window - s.next
  {
    hide FillStep;
    if s.next < s.acked + s.window {
      StepQueues(s);
      var (s1, stop) := FillStep(s);
      if !stop {
        PayloadPositive(s);
        DataFills(s, PayloadSize(s));
        if PayloadSize(s) < 1000 { NothingMore(s1); } else { LoopFull(s1); }
      }
    }
  }

  lemma PayloadPositive(s: Sender)
    requires s.next < s.acked + s.window && !FillStep(s).1
    ensures 0 < PayloadSize(s) <= 1000
  {
    hide InsertByTime, Wrap;
  }

  /** `fill_window` cuts what it sends into as few segments as it can: all but the last are full. */
  lemma SegmentsFull(s: Sender)
    ensures s.out <= FillWindow(s).out && Full(FillWindow(s).out, |s.out|)
  {
    hide InsertByTime;
    if !s.finSent && s.window != UNSET { LoopFull(s); }
  }

  /** Filling again sends nothing more. */
  lemma FilledOnce(s: Sender)
    requires s.window == UNSET ==> s.acked == 0
    ensures var s' := FillWindow(s).(out := []); FillWindow(s') == s' && (if s.finSent then FillWindow(s) == s else s'.window != UNSET)
  {
    if !s.finSent {
      if s.window == UNSET {
        NothingAfterSyn(s);
      } else {
        LoopDone(s);
      }
    }
  }

  lemma NothingAfterSyn(s: Sender)
    requires s.acked == 0
    ensures var s' := SendSyn(s).(out := []); FillWindow(s') == s' && s'.window != UNSET
  {
    hide InsertByTime;
  }

  lemma LoopDone(s: Sender)
    requires !s.finSent
    ensures var s' := FillLoop(s).(out := []); s'.window == s.window && (s'.finSent || FillLoop(s') == s')
  {
    LoopFills(s);
    var s' := FillLoop(s).(out := []);
    if !s'.finSent {
      hide FillLoop;
      NothingMore(s');
    }
  }

  /** The acknowledgment is one that the sender takes. */
  predicate Takes(s: Sender, ackno: u32) {
    s.acked <= Unwrap(ackno, s.isn, s.acked) <= s.next
  }

  /** After an acknowledgment is taken, `fill_window` goes exactly as far as the window that
      came with it, counted from the acknowledged number; a window of 0 counts as 1. */
  lemma AnsweredUpTo(s: Sender, ackno: u32, win: u16)
    requires Takes(s, ackno)
    ensures var s1, a := AckReceived(s, ackno, win), Unwrap(ackno, s.isn, s.acked); var s' := FillWindow(s1);
      && s'.acked == a && s'.window == Max(1, win) && (s'.zeroWindow <==> win == 0)
      && (if s.finSent then s'.next == s.next && s'.stream == s.stream else FillsUpTo(s, s', a + Max(1, win)))
  {
    hide Retain, Unwrap, FillLoop;
    var s1 := AckReceived(s, ackno, win);
    if !s.finSent { LoopFills(s1); }
  }

  /** The sender's state after a run is that of the last acknowledgment it took. */
  lemma {:induction false} WindowIsLast(s: Sender, es: seq<Event>, i: nat)
    requires i < |es| && es[i].Ack? && Takes(Run(s, es[..i]), es[i].ackno)
    requires forall j :: i < j < |es| && es[j].Ack? ==> !Takes(Run(s, es[..j]), es[j].ackno)
    ensures var s0, s' := Run(s, es[..i]), Run(s, es);
      && s'.acked == Unwrap(es[i].ackno, s0.isn, s0.acked)
      && s'.window == Max(1, es[i].win) && (s'.zeroWindow <==> es[i].win == 0)
    decreases |es|
  {
    hide Apply, Takes, Unwrap;
    var before, e := es[..|es| - 1], es[|es| - 1];
    if i == |before| {
      AckSets(Run(s, before), e.ackno, e.win);
    } else {
      forall j | 0 <= j < |before| ensures before[j] == es[j] && before[..j] == es[..j] {}
      WindowIsLast(s, before, i);
      assert es[..|before|] == before;
      if e.Ack? { Ignored(Run(s, before), e.ackno, e.win); } else { WindowStays(Run(s, before), e); }
    }
  }

  lemma AckSets(s: Sender, ackno: u32, win: u16)
    requires Takes(s, ackno)
    ensures var s' := Apply(s, Ack(ackno, win));
      s'.acked == Unwrap(ackno, s.isn, s.acked) && s'.window == Max(1, win) && (s'.zeroWindow <==> win == 0)
  {
    hide Unwrap, Retain;
  }

  lemma Ignored(s: Sender, ackno: u32, win: u16)
    requires !Takes(s, ackno)
    ensures Apply(s, Ack(ackno, win)) == s
  {
    hide Unwrap;
  }

  lemma WindowStays(s: Sender, e: Event)
    requires !e.Ack? && s.window != UNSET
    ensures var s' := Apply(s, e); s'.acked == s.acked && s'.window == s.window && s'.zeroWindow == s.zeroWindow
  {
    hide OldestDue, FillLoop;
    if e.Fill? && !s.finSent { LoopFills(s); }
  }

  /** On every run, a `fill_window` goes exactly as far as the last acknowledgment that was taken
      allows, whatever happened since. */
  lemma FilledUpTo(s: Sender, es: seq<Event>, i: nat)
    requires i < |es| && es[i].Ack? && Takes(Run(s, es[..i]), es[i].ackno)
    requires forall j :: i < j < |es| && es[j].Ack? ==> !Takes(Run(s, es[..j]), es[j].ackno)
    ensures var s0, s1 := Run(s, es[..i]), Run(s, es); var s' := Run(s, es + [Fill]);
      if s1.finSent then s'.next == s1.next && s'.stream == s1.stream
      else FillsUpTo(s1, s', Unwrap(es[i].ackno, s0.isn, s0.acked) + Max(1, es[i].win))
  {
    hide Unwrap, Takes, FillsUpTo, FillWindow, Run;
    WindowIsLast(s, es, i);
    RunAppend(s, es, Fill);
    WindowFills(Run(s, es));
  }

  lemma RunAppend(s: Sender, es: seq<Event>, e: Event)
    ensures Run(s, es + [e]) == Apply(Run(s, es), e)
  {
    hide Apply;
    assert (es + [e])[..|es + [e]| - 1] == es;
  }

  lemma WindowFills(s: Sender)
    requires s.window != UNSET
    ensures if s.finSent then FillWindow(s) == s else FillsUpTo(s, FillWindow(s), s.acked + s.window)
  {
    if !s.finSent { LoopFills(s); }
  }
}
