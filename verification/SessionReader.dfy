/**
 The reader loop of a PTY session (src/session_host.py): the colour filter feeds the
 paste-mode scan and the subscribers' queue.
 */
module SessionReader {
  import opened Options
  import opened Seqs
  import ColorOsc
  import BracketedPaste

  /** The paste flag after a run of mode changes. */
  function ModeAfter(modes: seq<bool>, initial: bool): bool {
    if modes == [] then initial else modes[|modes| - 1]
  }

  class Session {
    var colorCarry: string
    var decsetCarry: string
    var pasteMode: bool
    /** What has been queued to the subscribers, chunk by chunk. */
    var sent: seq<string>

    /** The flag and the carry are those of everything sent so far. */
    ghost predicate Tracks()
      reads this
    {
      && decsetCarry == BracketedPaste.Held(Flatten(sent))
      && pasteMode == ModeAfter(BracketedPaste.Modes(Flatten(sent)), false)
    }

    constructor ()
      ensures colorCarry == "" && decsetCarry == "" && !pasteMode && sent == []
    {
      colorCarry, decsetCarry, pasteMode, sent := "", "", false, [];
    }

    /** One non-empty read. */
    method OnChunk(raw: string)
      modifies this
      ensures (Flatten(sent), colorCarry) ==
              (Flatten(old(sent)) + ColorOsc.StripColorOsc(raw, old(colorCarry)).0,
               ColorOsc.StripColorOsc(raw, old(colorCarry)).1)
      ensures old(Tracks()) ==> Tracks()
    {
      hide Flatten, ColorOsc.StripColorOsc, BracketedPaste.Modes, BracketedPaste.Held;
      var (chunk, carry) := ColorOsc.StripColorOsc(raw, colorCarry);
      colorCarry := carry;
      if chunk == "" {
        NoneLeft(Flatten(sent));
        return;
      }
      BracketedPaste.CutTransparent(Flatten(sent), chunk);
      FlattenAppend(sent, chunk);
      var latest;
      latest, decsetCarry := BracketedPaste.ScanBracketedPasteMode(chunk, decsetCarry);
      if latest != None { pasteMode := latest.value; }
      sent := sent + [chunk];
    }

    /** The loop over everything the PTY delivers. */
    method ReadLoop(chunks: seq<string>)
      requires colorCarry == "" && decsetCarry == "" && !pasteMode && sent == []
      modifies this
      ensures (Flatten(sent), colorCarry) == ColorOsc.FilterRun(chunks, "")
      ensures Tracks()
    {
      NoneLeft(ColorOsc.FilterRun(chunks, "").0);
      for i := 0 to |chunks|
        invariant (Flatten(sent) + ColorOsc.FilterRun(chunks[i..], colorCarry).0,
                   ColorOsc.FilterRun(chunks[i..], colorCarry).1) == ColorOsc.FilterRun(chunks, "")
        invariant Tracks()
      {
        DropDrop(chunks, i, 1);
        ghost var first := ColorOsc.StripColorOsc(chunks[i], colorCarry);
        Assoc(Flatten(sent), first.0, ColorOsc.FilterRun(chunks[i + 1..], first.1).0);
        OnChunk(chunks[i]);
      }
      NoneLeft(chunks);
      NoneLeft(Flatten(sent));
    }
  }

  /** What the subscribers get and the flag the session ends with depend on the stream alone, not on its reads. */
  lemma ReadsDoNotMatter(chunks: seq<string>, other: seq<string>)
    requires Flatten(chunks) == Flatten(other)
    requires ColorOsc.CutsFit("", chunks) && ColorOsc.CutsFit("", other)
    ensures ColorOsc.FilterRun(chunks, "") == ColorOsc.FilterRun(other, "")
    ensures ModeAfter(BracketedPaste.Modes(ColorOsc.FilterRun(chunks, "").0), false) ==
            ModeAfter(BracketedPaste.Modes(ColorOsc.FilterRun(other, "").0), false)
  {
    ColorOsc.ChunkingDoesNotMatter(chunks);
    ColorOsc.ChunkingDoesNotMatter(other);
  }
}
