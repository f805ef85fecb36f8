/** The renderer's bytes, frame after frame, read by the repository's own terminal. */
module Session {
  import opened Utf8
  import opened Vt
  import opened VtParser
  import opened TermOps
  import opened Wire
  import opened Render
  import T = Terminal
  import opened Display

  /** Everything sent up to frame n. */
  function StreamTo(sent: seq<seq<Op>>, n: nat): seq<Byte>
    requires n <= |sent|
  {
    if n == 0 then [] else StreamTo(sent, n - 1) + BytesOf(sent[n - 1])
  }

  lemma {:induction false} StreamRuns(p: Parser, terms: seq<Screen>, sent: seq<seq<Op>>, frames: seq<Frame>,
                                      statusRow: nat, n: nat)
    requires AllShown(terms, sent, frames, statusRow) && Idle(p) && p.scr == terms[0] && n <= |sent|
    ensures Shows(FeedAll(p, StreamTo(sent, n)), terms[n])
  {
    hide Feed, FeedAll, BytesOf, FrameShown, Run;
    if n == 0 {
      FeedOne(p, 0);
    } else {
      StreamRuns(p, terms, sent, frames, statusRow, n - 1);
      FeedAppend(p, StreamTo(sent, n - 1), BytesOf(sent[n - 1]));
      FeedOps(FeedAll(p, StreamTo(sent, n - 1)), sent[n - 1]);
    }
  }

  /** After the bytes of each frame, a terminal that reads bytes as vt.c does shows that frame. */
  lemma EveryFrameIsShown(p: Parser, terms: seq<Screen>, sent: seq<seq<Op>>, frames: seq<Frame>, statusRow: nat, n: nat)
    requires AllShown(terms, sent, frames, statusRow) && Idle(p) && p.scr == terms[0] && 0 < n <= |sent|
    ensures FrameShown(FeedAll(p, StreamTo(sent, n)).scr, frames[n - 1], statusRow)
  {
    hide FeedAll, FrameShown, Run;
    StreamRuns(p, terms, sent, frames, statusRow, n);
  }

  /** The same of the terminal that is changed in place: fed the bytes of the first n frames, it shows the n-th. */
  method Watch(t: T.Terminal, sent: seq<seq<Op>>, n: nat, ghost terms: seq<Screen>, ghost frames: seq<Frame>,
               ghost statusRow: nat)
    requires t.Valid() && Idle(t.Value()) && AllShown(terms, sent, frames, statusRow) && t.Value().scr == terms[0]
             && 0 < n <= |sent|
    modifies t, t.params, t.inter, t.osc, t.utf8Buf, t.tabstops, t.scr, t.scr.Frame()
    ensures t.Valid() && FrameShown(t.Value().scr, frames[n - 1], statusRow)
  {
    hide T.Terminal.Value, T.Terminal.Formed, Parser.Valid, Screen.Valid, FeedAll, FrameShown, Run, BytesOf,
         Display.Value, Display.Formed;
    EveryFrameIsShown(t.Value(), terms, sent, frames, statusRow, n);
    t.FeedBytes(StreamTo(sent, n));
  }
}
