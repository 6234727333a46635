/**
 The read filter of the preprocessing stage (scara.py:166-190): every read
 whose name (the header up to its first space) is not contained is written
 back, unchanged, in the layout the reads file's extension names.
 */
module ReadFilter {
  import opened Wrappers
  import opened Strings

  /** One record as the FASTA/FASTQ reader returns it. */
  datatype ReadRecord = ReadRecord(header: string, bases: string, qual: string)

  datatype Layout = Fasta | Fastq | Unsupported

  /** The read name: the header up to its first space (`header[:header.find(' ')]`), or all of it. */
  function HeaderKey(h: string): (k: string)
    ensures ' ' !in k && StartsWith(h, k)
    ensures k == h || h[|k|] == ' '
  {
    if ' ' in h then h[..FirstIndex(h, ' ')] else h
  }

  /** The layout chosen by the extension, compared case-insensitively. */
  function LayoutOf(ext: string): Layout {
    var u := Upper(ext);
    if u == ".FA" || u == ".FASTA" then Fasta
    else if u == ".FQ" || u == ".FASTQ" then Fastq
    else Unsupported
  }

  /** Extensions equal up to ASCII case choose the same layout. */
  lemma LayoutOfIgnoresCase(a: string, b: string)
    requires EqualIgnoringCase(a, b)
    ensures LayoutOf(a) == LayoutOf(b)
  {
    UpperIgnoresCase(a, b);
  }

  /** FASTA for `.fa`/`.fasta` and FASTQ for `.fq`/`.fastq`, in any mix of case; anything else is unsupported. */
  lemma LayoutOfSpec(ext: string)
    ensures LayoutOf(ext) == Fasta <==> EqualIgnoringCase(ext, ".fa") || EqualIgnoringCase(ext, ".fasta")
    ensures LayoutOf(ext) == Fastq <==> EqualIgnoringCase(ext, ".fq") || EqualIgnoringCase(ext, ".fastq")
  {
    assert Upper(".fa") == ".FA";
    assert Upper(".fasta") == ".FASTA";
    assert Upper(".fq") == ".FQ";
    assert Upper(".fastq") == ".FASTQ";
    UpperIgnoresCase(ext, ".fa");
    UpperIgnoresCase(ext, ".fasta");
    UpperIgnoresCase(ext, ".fq");
    UpperIgnoresCase(ext, ".fastq");
  }

  /** The text written for one record; an unsupported extension writes nothing (only a warning). */
  function FormatRecord(r: ReadRecord, layout: Layout): string {
    match layout
    case Fasta => ">" + r.header + "\n" + r.bases + "\n"
    case Fastq => "@" + r.header + "\n" + r.bases + "\n" + "+" + "\n" + r.qual + "\n"
    case Unsupported => ""
  }

  /** The text of the filtered reads file: the source's loop over the records, in order. */
  function FilterReads(rs: seq<ReadRecord>, contained: set<string>, ext: string): string {
    if rs == [] then ""
    else
      (if HeaderKey(rs[0].header) !in contained then FormatRecord(rs[0], LayoutOf(ext)) else "") +
      FilterReads(rs[1..], contained, ext)
  }

  /** The records that survive the filter, in their original order. */
  function Kept(rs: seq<ReadRecord>, contained: set<string>): (k: seq<ReadRecord>)
    ensures |k| <= |rs|
    ensures forall x :: x in k <==> x in rs && HeaderKey(x.header) !in contained
  {
    if rs == [] then []
    else
      var rest := Kept(rs[1..], contained);
      assert forall x :: x in rs <==> x == rs[0] || x in rs[1..];
      if HeaderKey(rs[0].header) !in contained then [rs[0]] + rest else rest
  }

  /** Filtering distributes over concatenation, so the relative order of kept reads is the input order. */
  lemma {:induction false} KeptAppend(a: seq<ReadRecord>, b: seq<ReadRecord>, contained: set<string>)
    ensures Kept(a + b, contained) == Kept(a, contained) + Kept(b, contained)
  {
    if a == [] {
      assert a + b == b;
    } else {
      assert (a + b)[0] == a[0] && (a + b)[1..] == a[1..] + b;
      KeptAppend(a[1..], b, contained);
    }
  }

  /** The lines one record occupies. */
  function RecordLines(r: ReadRecord, layout: Layout): seq<string> {
    match layout
    case Fasta => [">" + r.header, r.bases]
    case Fastq => ["@" + r.header, r.bases, "+", r.qual]
    case Unsupported => []
  }

  function AllLines(rs: seq<ReadRecord>, layout: Layout): seq<string> {
    if rs == [] then [] else RecordLines(rs[0], layout) + AllLines(rs[1..], layout)
  }

  /** Lines each followed by a line break. */
  function Unlines(ls: seq<string>): string {
    if ls == [] then "" else ls[0] + "\n" + Unlines(ls[1..])
  }

  lemma {:induction false} UnlinesAppend(a: seq<string>, b: seq<string>)
    ensures Unlines(a + b) == Unlines(a) + Unlines(b)
  {
    if a == [] {
      assert a + b == b;
    } else {
      assert (a + b)[0] == a[0] && (a + b)[1..] == a[1..] + b;
      UnlinesAppend(a[1..], b);
    }
  }

  lemma {:induction false} UnlinesJoin(ls: seq<string>)
    ensures Unlines(ls) == JoinWith(ls + [""], '\n')
  {
    if ls != [] {
      assert (ls + [""])[1..] == ls[1..] + [""];
      UnlinesJoin(ls[1..]);
    }
  }

  /** One record's lines, each ended by a break, are exactly the text written for it. */
  lemma RecordUnlines(r: ReadRecord, layout: Layout)
    ensures Unlines(RecordLines(r, layout)) == FormatRecord(r, layout)
  {
    var l := RecordLines(r, layout);
    match layout
    case Fasta =>
      assert Unlines(l[1..]) == l[1] + "\n" by { assert l[1..][1..] == []; }
    case Fastq =>
      assert Unlines(l[3..]) == l[3] + "\n" by { assert l[3..][1..] == []; }
      assert Unlines(l[2..]) == l[2] + "\n" + Unlines(l[3..]) by { assert l[2..][1..] == l[3..]; }
      assert Unlines(l[1..]) == l[1] + "\n" + Unlines(l[2..]) by { assert l[1..][1..] == l[2..]; }
    case Unsupported =>
  }

  /** The written text is the kept records' lines, each ended by a line break. */
  lemma {:induction false} FilterReadsLines(rs: seq<ReadRecord>, contained: set<string>, ext: string)
    ensures FilterReads(rs, contained, ext) == Unlines(AllLines(Kept(rs, contained), LayoutOf(ext)))
  {
    if rs != [] {
      FilterReadsLines(rs[1..], contained, ext);
      var layout := LayoutOf(ext);
      var rest := AllLines(Kept(rs[1..], contained), layout);
      if HeaderKey(rs[0].header) !in contained {
        var k := Kept(rs, contained);
        assert k[0] == rs[0] && k[1..] == Kept(rs[1..], contained);
        UnlinesAppend(RecordLines(rs[0], layout), rest);
        RecordUnlines(rs[0], layout);
      }
    }
  }

  /** A reference reader for the written layouts: header line, sequence line, and for FASTQ `+` and quality. */
  function ReadBackLines(ls: seq<string>, layout: Layout): Option<seq<ReadRecord>>
    decreases |ls|
  {
    if ls == [""] then Some([])
    else
      match layout
      case Fasta =>
        if |ls| >= 3 && StartsWith(ls[0], ">") then
          match ReadBackLines(ls[2..], layout)
          case Some(rest) => Some([ReadRecord(ls[0][1..], ls[1], "")] + rest)
          case None => None
        else None
      case Fastq =>
        if |ls| >= 5 && StartsWith(ls[0], "@") && ls[2] == "+" then
          match ReadBackLines(ls[4..], layout)
          case Some(rest) => Some([ReadRecord(ls[0][1..], ls[1], ls[3])] + rest)
          case None => None
        else None
      case Unsupported => None
  }

  function ReadBack(text: string, layout: Layout): Option<seq<ReadRecord>> {
    ReadBackLines(Split(text, '\n'), layout)
  }

  /** What the reader can recover of the records: FASTA keeps no quality, an unsupported layout keeps nothing. */
  function Shown(rs: seq<ReadRecord>, layout: Layout): seq<ReadRecord> {
    if rs == [] || layout == Unsupported then []
    else [if layout == Fasta then rs[0].(qual := "") else rs[0]] + Shown(rs[1..], layout)
  }

  /** FASTQ shows every record whole; FASTA every record with its quality dropped. */
  lemma {:induction false} ShownRecords(rs: seq<ReadRecord>, layout: Layout)
    ensures layout == Fastq ==> Shown(rs, layout) == rs
    ensures layout == Fasta ==>
      |Shown(rs, layout)| == |rs| && forall i :: 0 <= i < |rs| ==> Shown(rs, layout)[i] == rs[i].(qual := "")
    ensures layout == Unsupported ==> Shown(rs, layout) == []
  {
    if rs != [] {
      ShownRecords(rs[1..], layout);
      if layout == Fastq {
        assert rs == [rs[0]] + rs[1..];
      } else if layout == Fasta {
        assert forall i :: 1 <= i < |rs| ==> Shown(rs, layout)[i] == Shown(rs[1..], layout)[i - 1] && rs[i] == rs[1..][i - 1];
      }
    }
  }

  predicate SingleLine(r: ReadRecord) {
    '\n' !in r.header && '\n' !in r.bases && '\n' !in r.qual
  }

  /**
   Reading the filtered file back yields exactly the kept records, in order,
   with header, sequence and (for FASTQ) quality intact.
   */
  lemma FilterReadsRoundTrip(rs: seq<ReadRecord>, contained: set<string>, ext: string)
    requires forall i :: 0 <= i < |rs| ==> SingleLine(rs[i])
    ensures ReadBack(FilterReads(rs, contained, ext), LayoutOf(ext)) == Some(Shown(Kept(rs, contained), LayoutOf(ext)))
  {
    var layout := LayoutOf(ext);
    var k := Kept(rs, contained);
    assert forall i :: 0 <= i < |k| ==> SingleLine(k[i]) by {
      forall i | 0 <= i < |k| ensures SingleLine(k[i]) {
        assert k[i] in rs;
      }
    }
    FilterReadsLines(rs, contained, ext);
    var ls := AllLines(k, layout);
    UnlinesJoin(ls);
    AllLinesSingle(k, layout);
    SplitJoin(ls + [""], '\n');
    ReadBackAll(k, layout);
  }

  lemma {:induction false} AllLinesSingle(rs: seq<ReadRecord>, layout: Layout)
    requires forall i :: 0 <= i < |rs| ==> SingleLine(rs[i])
    ensures forall j :: 0 <= j < |AllLines(rs, layout) + [""]| ==> '\n' !in (AllLines(rs, layout) + [""])[j]
  {
    if rs != [] {
      AllLinesSingle(rs[1..], layout);
      var r := rs[0];
      assert SingleLine(r);
      var head := RecordLines(r, layout);
      assert forall j :: 0 <= j < |head| ==> '\n' !in head[j] by {
        assert '\n' !in ">" + r.header && '\n' !in "@" + r.header;
      }
      assert AllLines(rs, layout) + [""] == head + (AllLines(rs[1..], layout) + [""]);
    }
  }

  lemma {:induction false} ReadBackAll(rs: seq<ReadRecord>, layout: Layout)
    ensures ReadBackLines(AllLines(rs, layout) + [""], layout) == Some(Shown(rs, layout))
  {
    if rs == [] {
      assert AllLines(rs, layout) + [""] == [""];
    } else if layout == Unsupported {
      assert AllLines(rs, layout) == AllLines(rs[1..], layout);
      ReadBackAll(rs[1..], layout);
    } else {
      ReadBackAll(rs[1..], layout);
      var tail := AllLines(rs[1..], layout) + [""];
      assert AllLines(rs, layout) + [""] == RecordLines(rs[0], layout) + tail;
      if layout == Fasta {
        ReadBackFastaStep(rs[0], tail, Shown(rs[1..], layout));
      } else {
        ReadBackFastqStep(rs[0], tail, Shown(rs[1..], layout));
      }
    }
  }

  lemma ReadBackFastaStep(r: ReadRecord, tail: seq<string>, rest: seq<ReadRecord>)
    requires |tail| >= 1 && ReadBackLines(tail, Fasta) == Some(rest)
    ensures ReadBackLines(RecordLines(r, Fasta) + tail, Fasta) == Some([r.(qual := "")] + rest)
  {
    var ls := RecordLines(r, Fasta) + tail;
    assert ls[0] == ">" + r.header && ls[1] == r.bases && ls[2..] == tail;
    assert (">" + r.header)[1..] == r.header;
  }

  lemma ReadBackFastqStep(r: ReadRecord, tail: seq<string>, rest: seq<ReadRecord>)
    requires |tail| >= 1 && ReadBackLines(tail, Fastq) == Some(rest)
    ensures ReadBackLines(RecordLines(r, Fastq) + tail, Fastq) == Some([r] + rest)
  {
    var ls := RecordLines(r, Fastq) + tail;
    assert ls[0] == "@" + r.header && ls[1] == r.bases && ls[2] == "+" && ls[3] == r.qual && ls[4..] == tail;
    assert ("@" + r.header)[1..] == r.header;
    assert StartsWith(ls[0], "@");
  }
}
