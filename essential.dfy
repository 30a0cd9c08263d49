/** `EssentialBitParser`: the reader of `.ebd` files, where a '1' marks an
    essential bit. Its `parse_file` is the `.ebd` reader of `AsciiParser`
    with `ascii_to_int` written out in the loop; the written-out loop adds
    `0x080000000 >> i` for a '1' at character `i` of the first 32, exactly
    as `ascii_to_int` does, so the model reads each line with `AsciiToInt`. */
module EssentialBitParsing {
  import opened Wrappers
  import opened Bits
  import opened Ascii
  import opened Series
  import opened Codec
  import opened Cursor
  import opened Nested
  import opened Loading
  import opened Filling
  import opened Extraction
  import opened Frads
  import opened AsciiRuns
  import opened AsciiParsing
  import opened Upsets

  /** `EssentialBitParser().parse_file`: from address 0, every line
      beginning with '0' or '1' is a word of the current frame, and a turn
      that begins with the frame full first steps forward. A word line
      shorter than 32 characters raises, and the model returns `false`. */
  method ParseFile(fs: FradStructure, lines: seq<string>) returns (ok: bool)
    requires fs.Consistent() && WellFormed(fs.StoreShape(), fs.cfg.hasHalf)
    modifies fs
    ensures fs.Consistent() && fs.StoreShape() == old(fs.StoreShape())
    ensures fs.Loaded() == old(fs.Loaded()).(store := fs.store)
    ensures var run := EbdRun(lines, fs.cfg.wordsPerFrame);
      ok == run.ok && fs.Filled() == Written(Fill(old(fs.store), Origin), fs.cfg.hasHalf, run.frames, run.partial)
  {
    ok := ParseEbdFile(fs, lines);
  }

  /** The word lines from `i` on, up to the first that is too short to
      read: the lines whose words `Accepted` lists. */
  function WordLines(lines: seq<string>, i: nat): seq<string>
    requires i <= |lines|
    decreases |lines| - i
  {
    if i == |lines| then []
    else if !IsWordLine(lines[i]) then WordLines(lines, i + 1)
    else if |lines[i]| < LineWidth then []
    else [lines[i]] + WordLines(lines, i + 1)
  }

  /** Each accepted word is read from the word line of the same rank,
      which holds the 32 characters `ascii_to_int` reads. */
  lemma {:induction false} AcceptedLines(lines: seq<string>, i: nat)
    requires i <= |lines|
    ensures var ls := WordLines(lines, i); var ws := Accepted(lines, i);
      |ls| == |ws| &&
      forall p :: 0 <= p < |ls| ==> IsWordLine(ls[p]) && |ls[p]| >= LineWidth && AsciiValue(ls[p]) == Some(ws[p])
    decreases |lines| - i
  {
    if i < |lines| {
      AcceptedLines(lines, i + 1);
      if IsWordLine(lines[i]) && |lines[i]| >= LineWidth {
        var ls, ws := WordLines(lines, i + 1), Accepted(lines, i + 1);
        assert WordLines(lines, i) == [lines[i]] + ls;
        assert Accepted(lines, i) == [AsciiValue(lines[i]).value] + ws;
      }
    }
  }

  /** A '1' in an `.ebd` file marks an essential bit: bit `j` of word `m`
      of frame `k` stored by `parse_file` is set exactly when character
      `31 - j` of the word line of rank `wpf * k + m` is '1'. This is the
      bit that `find_essential_upsets` tests. */
  lemma EssentialBit(lines: seq<string>, wpf: nat, k: nat, m: nat, j: nat)
    requires wpf > 0 && j < LineWidth
    requires k < |EbdRun(lines, wpf).frames| && m < wpf
    ensures var ls := WordLines(lines, 0);
      |EbdRun(lines, wpf).frames[k]| == wpf && wpf * k + m < |ls| && |ls[wpf * k + m]| >= LineWidth &&
      (IsSet(EbdRun(lines, wpf).frames[k][m], j) <==> ls[wpf * k + m][31 - j] == '1')
  {
    var r := EbdRun(lines, wpf);
    EbdWord(lines, wpf, k, m);
    FrameWordsProduct(wpf, k);
    AcceptedLines(lines, 0);
    var line := WordLines(lines, 0)[wpf * k + m];
    AsciiBit(line, j);
    IsSetBit(r.frames[k][m], j);
  }
}
