/**
 * View (main.go): the text the program shows for a model. An error wins;
 * without one, an empty list shows a loading notice; otherwise every record
 * whose filesystem starts with `/` gets a block of seven lines and a blank
 * line, in list order, and the other records are skipped.
 *
 * The colours that lipgloss adds are not part of this model: each styled
 * piece is its plain text.
 */
module Screen {
  import opened Wrappers
  import opened Text
  import opened Decimal
  import opened DiskParser
  import opened SizeFormat
  import opened UsageBar
  import opened App

  const LoadingText := "Loading disk information..."

  /** The records View shows. The source also tests for `/dev`, a case the
      `/` test already covers. */
  predicate Displayed(d: DiskInfo) {
    HasPrefix(d.filesystem, "/dev") || HasPrefix(d.filesystem, "/")
  }

  /** Every shown record's usage bar can be drawn. */
  predicate Drawable(ds: seq<DiskInfo>) {
    forall k :: 0 <= k < |ds| && Displayed(ds[k]) ==> Renderable(ds[k].usePercent)
  }

  /** The block View writes for one shown record: each line ends in a
      newline, and an empty line follows. */
  function DeviceBlock(d: DiskInfo): string
    requires Renderable(d.usePercent)
  {
    d.filesystem + "\n"
    + "├─ Size: " + FormatSize(d.size) + "\n"
    + "├─ Used: " + FormatSize(d.used) + "\n"
    + "├─ Available: " + FormatSize(d.available) + "\n"
    + "├─ Usage: " + (FormatInt(d.usePercent) + "%") + "\n"
    + "├─ Mounted on: " + d.mountPoint + "\n"
    + "└─ [" + Bar(d.usePercent) + "]\n\n"
  }

  /** What a record adds to the screen: its block, or nothing. */
  function Contribution(d: DiskInfo): string
    requires Displayed(d) ==> Renderable(d.usePercent)
  {
    if Displayed(d) then DeviceBlock(d) else ""
  }

  /** The blocks of a list of records, in order. */
  function Blocks(ds: seq<DiskInfo>): string
    requires Drawable(ds)
  {
    if ds == [] then ""
    else Blocks(ds[..|ds| - 1]) + Contribution(ds[|ds| - 1])
  }

  /** The records View shows, in order. */
  function Shown(ds: seq<DiskInfo>): seq<DiskInfo>
  {
    if ds == [] then []
    else Shown(ds[..|ds| - 1]) + (if Displayed(ds[|ds| - 1]) then [ds[|ds| - 1]] else [])
  }

  /** What View may be asked to draw without a panic in `strings.Repeat`. */
  predicate CanView(m: Model) {
    m.err.Some? || Drawable(m.diskInfos)
  }

  /** The screen for a model. */
  function ViewText(m: Model): string
    requires CanView(m)
  {
    if m.err.Some? then "Error: " + m.err.value
    else if |m.diskInfos| == 0 then LoadingText
    else Blocks(m.diskInfos)
  }

  /** View: the early returns, then the loop that writes the block of each
      shown record into a builder. */
  method View(m: Model) returns (s: string)
    requires CanView(m)
    ensures s == ViewText(m)
  {
    if m.err.Some? {
      return "Error: " + m.err.value;
    }
    if |m.diskInfos| == 0 {
      return LoadingText;
    }
    var sb := "";
    var ds := m.diskInfos;
    for i := 0 to |ds|
      invariant Drawable(ds[..i])
      invariant sb == Blocks(ds[..i])
    {
      var di := ds[i];
      BlocksStep(ds, i);
      if HasPrefix(di.filesystem, "/dev") || HasPrefix(di.filesystem, "/") {
        assert Displayed(di) && Renderable(di.usePercent);
        var deviceInfo := di.filesystem + "\n";
        deviceInfo := deviceInfo + "├─ Size: " + FormatSize(di.size) + "\n";
        deviceInfo := deviceInfo + "├─ Used: " + FormatSize(di.used) + "\n";
        deviceInfo := deviceInfo + "├─ Available: " + FormatSize(di.available) + "\n";
        deviceInfo := deviceInfo + "├─ Usage: " + (FormatInt(di.usePercent) + "%") + "\n";
        deviceInfo := deviceInfo + "├─ Mounted on: " + di.mountPoint + "\n";
        var usedBar := Repeat('█', UsedCells(di.usePercent));
        var availBar := Repeat('░', AvailCells(di.usePercent));
        deviceInfo := deviceInfo + "└─ [" + (usedBar + availBar) + "]\n\n";
        assert deviceInfo == Contribution(di);
        sb := sb + deviceInfo;
      }
    }
    assert ds[..|ds|] == ds;
    s := sb;
  }

  /** One more record adds its contribution at the end. */
  lemma BlocksStep(ds: seq<DiskInfo>, i: nat)
    requires i < |ds| && Drawable(ds[..i]) && Drawable(ds)
    ensures Drawable(ds[..i + 1])
    ensures Blocks(ds[..i + 1]) == Blocks(ds[..i]) + Contribution(ds[i])
  {
    var p := ds[..i + 1];
    assert p[..i] == ds[..i];
    assert p[i] == ds[i];
    forall k | 0 <= k < |p| && Displayed(p[k]) ensures Renderable(p[k].usePercent) {
      assert p[k] == ds[k];
    }
  }

  // ---------------------------------------------------------------------------

  /** An error is shown whatever the list holds. */
  lemma ViewShowsError(ds: seq<DiskInfo>, e: string)
    ensures ViewText(Model(ds, Some(e))) == "Error: " + e
  {
  }

  /** Without an error, an empty list shows the loading notice and nothing
      else. */
  lemma ViewLoading()
    ensures ViewText(Model([], None)) == LoadingText
  {
  }

  lemma DrawableAppend(a: seq<DiskInfo>, b: seq<DiskInfo>)
    requires Drawable(a) && Drawable(b)
    ensures Drawable(a + b)
  {
    forall k | 0 <= k < |a + b| && Displayed((a + b)[k])
      ensures Renderable((a + b)[k].usePercent)
    {
      if k >= |a| {
        assert (a + b)[k] == b[k - |a|];
      }
    }
  }

  lemma DrawableInit(ds: seq<DiskInfo>)
    requires ds != [] && Drawable(ds)
    ensures Drawable(ds[..|ds| - 1])
  {
    var init := ds[..|ds| - 1];
    forall k | 0 <= k < |init| && Displayed(init[k]) ensures Renderable(init[k].usePercent) {
      assert init[k] == ds[k];
    }
  }

  /** The blocks of two lists in a row are the blocks of the first followed
      by those of the second. */
  lemma {:induction false} BlocksAppend(a: seq<DiskInfo>, b: seq<DiskInfo>)
    requires Drawable(a) && Drawable(b)
    ensures Drawable(a + b)
    ensures Blocks(a + b) == Blocks(a) + Blocks(b)
    decreases |b|
  {
    DrawableAppend(a, b);
    if b == [] {
      assert a + b == a;
    } else {
      var b' := b[..|b| - 1];
      var x := b[|b| - 1];
      DrawableInit(b);
      BlocksAppend(a, b');
      SplitLast(a, b);
      BlocksSnoc(a + b', x);
      BlocksSnoc(b', x);
      ConcatAssoc(Blocks(a), Blocks(b'), Contribution(x));
    }
  }

  lemma BlocksSnoc(ds: seq<DiskInfo>, x: DiskInfo)
    requires Drawable(ds + [x])
    ensures Drawable(ds) && (Displayed(x) ==> Renderable(x.usePercent))
    ensures Blocks(ds + [x]) == Blocks(ds) + Contribution(x)
  {
    assert (ds + [x])[..|ds|] == ds && (ds + [x])[|ds|] == x;
    DrawableInit(ds + [x]);
  }

  /** The screen only depends on the shown records: skipping the others
      changes nothing, and the order is kept. */
  lemma {:induction false} BlocksOfShown(ds: seq<DiskInfo>)
    requires Drawable(ds)
    ensures Drawable(Shown(ds))
    ensures Blocks(Shown(ds)) == Blocks(ds)
  {
    if ds != [] {
      var init := ds[..|ds| - 1];
      var x := ds[|ds| - 1];
      DrawableInit(ds);
      BlocksOfShown(init);
      var tail := if Displayed(x) then [x] else [];
      assert Drawable(tail);
      BlocksAppend(Shown(init), tail);
      if Displayed(x) {
        assert (Shown(init) + tail)[..|Shown(init) + tail| - 1] == Shown(init);
      } else {
        assert Shown(init) + tail == Shown(init);
      }
    }
  }

  /** Exactly the records that start with `/` are shown, in order. */
  lemma {:induction false} ShownRecords(ds: seq<DiskInfo>)
    ensures forall d :: d in Shown(ds) <==> d in ds && HasPrefix(d.filesystem, "/")
  {
    if ds != [] {
      var init := ds[..|ds| - 1];
      ShownRecords(init);
      assert ds == init + [ds[|ds| - 1]];
    }
  }

  /** `/dev` is itself a path: the test for it adds nothing. */
  lemma DisplayedIsPath(d: DiskInfo)
    ensures Displayed(d) <==> HasPrefix(d.filesystem, "/")
  {
  }

  /** The pseudo filesystems the parser accepts are never shown: a parsed
      record is shown exactly when it is not `tmpfs` or `devtmpfs`. */
  lemma ParsedShown(output: string, d: DiskInfo)
    requires d in ParseDf(output)
    ensures Displayed(d) <==>
      !HasPrefix(d.filesystem, "tmpfs") && !HasPrefix(d.filesystem, "devtmpfs")
  {
    ParseDfWellFormed(output);
    assert WellFormed(d);
    DisplayedIsPath(d);
    PrefixesExclusive(d.filesystem);
  }

  lemma PrefixesExclusive(fs: string)
    requires HasDfPrefix(fs)
    ensures HasPrefix(fs, "/") <==> !HasPrefix(fs, "tmpfs") && !HasPrefix(fs, "devtmpfs")
  {
    if HasPrefix(fs, "tmpfs") {
      assert fs[0] == fs[..5][0];
    }
    if HasPrefix(fs, "devtmpfs") {
      assert fs[0] == fs[..8][0];
    }
    if HasPrefix(fs, "/") {
      assert fs[0] == fs[..1][0];
    }
  }

  /** A list of pseudo filesystems alone shows an empty screen, not the
      loading notice. */
  lemma {:induction false} NothingShown(ds: seq<DiskInfo>)
    requires forall k :: 0 <= k < |ds| ==> !Displayed(ds[k])
    ensures Drawable(ds)
    ensures Blocks(ds) == ""
    ensures ds != [] ==> ViewText(Model(ds, None)) == ""
  {
    if ds != [] {
      NothingShown(ds[..|ds| - 1]);
    }
  }

  /** From the initial state, the screen after the query's message is the
      error, or the blocks of the parsed records (the loading notice when
      there are none). */
  lemma ScreenAfterQuery(outcome: ExecOutcome)
    requires outcome.ExecOutput? ==> Drawable(ParseDf(outcome.output))
    ensures CanView(Update(Initial, DiskInfoMsg(outcome)).0)
    ensures outcome.ExecFailed? ==>
      ViewText(Update(Initial, DiskInfoMsg(outcome)).0) == "Error: " + outcome.message
    ensures outcome.ExecOutput? && ParseDf(outcome.output) == [] ==>
      ViewText(Update(Initial, DiskInfoMsg(outcome)).0) == LoadingText
    ensures outcome.ExecOutput? && ParseDf(outcome.output) != [] ==>
      ViewText(Update(Initial, DiskInfoMsg(outcome)).0) == Blocks(ParseDf(outcome.output))
  {
  }
}
