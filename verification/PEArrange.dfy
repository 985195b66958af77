/** Writing sections one after the other into a file, and what can be read back from it. */
module PEArrange {
  import opened Bytes
  import opened PELayout

  /** Where a section goes in the file and what it holds. */
  datatype Raw = Raw(at: nat, size: nat, data: seq<Byte>)
  {
    function End(): nat { at + size }

    predicate Fits() { |data| <= size && (data == [] ==> size == 0) }
  }

  /** A file being written: its bytes, the writer's running offset and the file pointer. */
  datatype Writer = Writer(bytes: seq<Byte>, offset: nat, pos: nat)

  function PadTo(w: Writer, n: nat): Writer {
    if n > w.offset then Writer(Overwrite(w.bytes, w.offset, Zeros(n - w.offset)), n, n) else w
  }

  function WriteSection(w: Writer, r: Raw): Writer {
    if r.at == 0 then w
    else
      var w1 := PadTo(w, r.at);
      if r.data == [] then w1
      else PadTo(WriteData(w1, r), w1.offset + r.size)
  }

  function WriteAll(w: Writer, rs: seq<Raw>): Writer
    decreases |rs|
  {
    if rs == [] then w else WriteAll(WriteSection(w, rs[0]), rs[1..])
  }

  /** The overlay, if there is one, goes behind everything written so far. */
  function Append(w: Writer, overlay: seq<Byte>): Writer {
    if overlay == [] then w
    else Writer(Overwrite(w.bytes, w.offset, overlay), w.offset + |overlay|, w.offset + |overlay|)
  }

  function Written(header: seq<Byte>, rs: seq<Raw>, overlay: seq<Byte>): Writer {
    Append(WriteAll(Writer(header, |header|, |header|), rs), overlay)
  }

  /** The file after headers, sections and overlay are written and its end is set. */
  function Saved(header: seq<Byte>, rs: seq<Raw>, overlay: seq<Byte>): seq<Byte> {
    var w := Written(header, rs, overlay);
    if w.pos <= |w.bytes| then w.bytes[..w.pos] else w.bytes + Zeros(w.pos - |w.bytes|)
  }

  function FinalPos(header: seq<Byte>, rs: seq<Raw>, overlay: seq<Byte>): nat {
    Written(header, rs, overlay).pos
  }

  /** Sections behind the headers, each big enough for its data, no two of them overlapping. */
  ghost predicate Arranged(rs: seq<Raw>, header: nat) {
    && (forall i :: 0 <= i < |rs| ==> 0 < header <= rs[i].at && rs[i].Fits())
    && forall i, j :: 0 <= i < |rs| && 0 <= j < |rs| && i != j ==> rs[i].End() <= rs[j].at || rs[j].End() <= rs[i].at
  }

  /** The raw range of r holds its data, zero-extended. */
  ghost predicate Holds(bytes: seq<Byte>, r: Raw) {
    forall k :: r.at <= k < r.End() ==> ByteAt(bytes, k) == ByteAt(r.data, k - r.at)
  }

  ghost predicate Blank(bytes: seq<Byte>, r: Raw) {
    forall k :: r.at <= k < r.End() ==> ByteAt(bytes, k) == 0
  }

  /** After the first n sections of rs have been written. */
  ghost predicate Content(w: Writer, rs: seq<Raw>, n: nat, header: seq<Byte>)
    requires n <= |rs|
  {
    && |header| <= w.offset
    && (forall k :: 0 <= k < |header| ==> ByteAt(w.bytes, k) == header[k])
    && (forall i :: 0 <= i < n ==> rs[i].End() <= w.offset && Holds(w.bytes, rs[i]))
    && (forall i :: n <= i < |rs| ==> Blank(w.bytes, rs[i]))
  }

  /** The file pointer is at the running offset, or at the end of the section written last. */
  ghost predicate Pointer(w: Writer, rs: seq<Raw>, n: nat)
    requires n <= |rs|
  {
    && w.pos <= |w.bytes|
    && (w.pos == w.offset || exists i :: 0 <= i < n && rs[i].data != [] && w.pos == rs[i].End())
  }

  ghost predicate Progress(w: Writer, rs: seq<Raw>, n: nat, header: seq<Byte>)
    requires n <= |rs|
  {
    Content(w, rs, n, header) && Pointer(w, rs, n)
  }

  /** Zero padding from the running offset on disturbs neither finished nor pending sections. */
  lemma PadContent(w: Writer, rs: seq<Raw>, n: nat, header: seq<Byte>, to: nat)
    requires n <= |rs| && Content(w, rs, n, header)
    ensures Content(PadTo(w, to), rs, n, header)
  {
    var w' := PadTo(w, to);
    if to > w.offset {
      var z := Zeros(to - w.offset);
      forall k: nat ensures ByteAt(w'.bytes, k) == if w.offset <= k < to then 0 else ByteAt(w.bytes, k) {
        OverwriteAt(w.bytes, w.offset, z, k);
      }
      forall i | 0 <= i < n ensures Holds(w'.bytes, rs[i]) { }
      forall i | n <= i < |rs| ensures Blank(w'.bytes, rs[i]) { }
    }
  }

  function WriteData(w: Writer, r: Raw): Writer {
    Writer(Overwrite(w.bytes, r.at, r.data), w.offset + |r.data|, r.at + |r.data|)
  }

  /** Writing a section's data fills the front of its range and touches no other range. */
  lemma DataBytes(w: Writer, rs: seq<Raw>, n: nat, header: seq<Byte>)
    requires Arranged(rs, |header|) && n < |rs| && Content(w, rs, n, header)
    requires rs[n].data != [] && rs[n].at <= w.offset
    ensures var b := WriteData(w, rs[n]).bytes;
      && (forall k :: 0 <= k < |header| ==> ByteAt(b, k) == header[k])
      && (forall i :: 0 <= i <= n ==> Holds(b, rs[i]))
      && (forall i :: n < i < |rs| ==> Blank(b, rs[i]))
  {
    var r, b := rs[n], WriteData(w, rs[n]).bytes;
    forall k: nat
      ensures ByteAt(b, k) == if r.at <= k < r.at + |r.data| then r.data[k - r.at] else ByteAt(w.bytes, k)
    {
      OverwriteAt(w.bytes, r.at, r.data, k);
    }
    forall i | 0 <= i < |rs| && i != n ensures if i < n then Holds(b, rs[i]) else Blank(b, rs[i]) {
      assert rs[i].End() <= r.at || r.End() <= rs[i].at;
    }
    assert Blank(w.bytes, r);
    assert Holds(b, r);
  }

  /** The padding behind a section's data starts at the running offset, so it too is blank space. */
  lemma SectionContent(w: Writer, rs: seq<Raw>, n: nat, header: seq<Byte>)
    requires Arranged(rs, |header|) && n < |rs| && Content(w, rs, n, header)
    requires rs[n].data != [] && rs[n].at <= w.offset
    ensures Content(PadTo(WriteData(w, rs[n]), w.offset + rs[n].size), rs, n + 1, header)
  {
    var r, w2 := rs[n], WriteData(w, rs[n]);
    DataBytes(w, rs, n, header);
    var w3 := PadTo(w2, w.offset + r.size);
    var z := Zeros(r.size - |r.data|);
    forall k: nat ensures ByteAt(w3.bytes, k) == if w2.offset <= k < w3.offset then 0 else ByteAt(w2.bytes, k) {
      OverwriteAt(w2.bytes, w2.offset, z, k);
    }
    forall i | 0 <= i <= n ensures rs[i].End() <= w3.offset && Holds(w3.bytes, rs[i]) { }
    forall i | n < i < |rs| ensures Blank(w3.bytes, rs[i]) { }
  }

  lemma SectionProgress(w: Writer, rs: seq<Raw>, n: nat, header: seq<Byte>)
    requires Arranged(rs, |header|) && n < |rs| && Progress(w, rs, n, header)
    ensures Progress(WriteSection(w, rs[n]), rs, n + 1, header)
  {
    var r := rs[n];
    PadContent(w, rs, n, header, r.at);
    var w1 := PadTo(w, r.at);
    if r.data != [] {
      SectionContent(w1, rs, n, header);
      if |r.data| == r.size {
        assert WriteData(w1, r).pos == rs[n].End();
      }
    } else {
      assert Holds(w1.bytes, r);
    }
  }

  lemma {:induction false} AllProgress(w: Writer, rs: seq<Raw>, n: nat, header: seq<Byte>)
    requires Arranged(rs, |header|) && n <= |rs| && Progress(w, rs, n, header)
    ensures Progress(WriteAll(w, rs[n..]), rs, |rs|, header)
    decreases |rs| - n
  {
    if n < |rs| {
      SectionProgress(w, rs, n, header);
      AllProgress(WriteSection(w, rs[n]), rs, n + 1, header);
      assert rs[n..][1..] == rs[n + 1..];
    }
  }

  lemma WrittenProgress(header: seq<Byte>, rs: seq<Raw>, overlay: seq<Byte>)
    requires Arranged(rs, |header|)
    ensures Progress(Written(header, rs, overlay), rs, |rs|, header)
  {
    AllProgress(Writer(header, |header|, |header|), rs, 0, header);
    assert rs[0..] == rs;
    var w, w' := WriteAll(Writer(header, |header|, |header|), rs), Written(header, rs, overlay);
    if overlay != [] {
      forall k: nat | k < w.offset ensures ByteAt(w'.bytes, k) == ByteAt(w.bytes, k) {
        OverwriteAt(w.bytes, w.offset, overlay, k);
      }
      forall i | 0 <= i < |rs| ensures Holds(w'.bytes, rs[i]) { }
    }
  }

  /** What the loader sees of a section that survived. */
  function Image(r: Raw): seq<Byte>
    requires |r.data| <= r.size
  {
    r.data + Zeros(r.size - |r.data|)
  }

  ghost predicate Restored(file: seq<Byte>, rs: seq<Raw>) {
    forall i :: 0 <= i < |rs| && |rs[i].data| <= rs[i].size ==> ReadBack(file, rs[i].at, rs[i].size) == Image(rs[i])
  }

  /** Every section that has data ends below the file pointer of the last write. */
  ghost predicate Covered(rs: seq<Raw>, pos: nat) {
    forall i :: 0 <= i < |rs| && rs[i].data != [] ==> rs[i].End() <= pos
  }

  ghost predicate NotAllZero(s: seq<Byte>) {
    exists k :: 0 <= k < |s| && s[k] != 0
  }

  lemma Survives(file: seq<Byte>, bytes: seq<Byte>, pos: nat, r: Raw)
    requires pos <= |bytes| && file == bytes[..pos] && Holds(bytes, r) && |r.data| <= r.size
    requires r.data == [] ==> r.size == 0
    requires r.End() <= pos || r.data == []
    ensures ReadBack(file, r.at, r.size) == Image(r)
  {
    var x, y := ReadBack(file, r.at, r.size), Image(r);
    forall k | 0 <= k < r.size ensures x[k] == y[k] {
      assert ByteAt(bytes, r.at + k) == ByteAt(r.data, k);
    }
  }

  /** A section above the cut is lost as a whole, its non-zero bytes included. */
  lemma LostByte(header: seq<Byte>, rs: seq<Raw>, overlay: seq<Byte>) returns (i: nat, k: nat)
    requires Arranged(rs, |header|)
    requires forall i :: 0 <= i < |rs| && rs[i].data != [] ==> NotAllZero(rs[i].data)
    requires !Covered(rs, FinalPos(header, rs, overlay))
    ensures i < |rs| && k < |rs[i].data| && rs[i].data[k] != 0 && ByteAt(Saved(header, rs, overlay), rs[i].at + k) == 0
  {
    WrittenProgress(header, rs, overlay);
    var w := Written(header, rs, overlay);
    i :| 0 <= i < |rs| && rs[i].data != [] && rs[i].End() > w.pos;
    var j :| 0 <= j < |rs| && rs[j].data != [] && w.pos == rs[j].End();
    assert i != j && rs[j].End() <= rs[i].at;
    assert NotAllZero(rs[i].data);
    k :| 0 <= k < |rs[i].data| && rs[i].data[k] != 0;
  }

  lemma RestoredWhenCovered(header: seq<Byte>, rs: seq<Raw>, overlay: seq<Byte>)
    requires Arranged(rs, |header|) && Covered(rs, FinalPos(header, rs, overlay))
    ensures Restored(Saved(header, rs, overlay), rs)
  {
    WrittenProgress(header, rs, overlay);
    var file, w := Saved(header, rs, overlay), Written(header, rs, overlay);
    forall i | 0 <= i < |rs| ensures ReadBack(file, rs[i].at, rs[i].size) == Image(rs[i]) {
      Survives(file, w.bytes, w.pos, rs[i]);
    }
  }

  /** SetEndOfFile cuts the file at the last write. In whatever order the sections are written,
      every section reads back exactly when no section with data lies above that point. */
  lemma RestoredIffCovered(header: seq<Byte>, rs: seq<Raw>, overlay: seq<Byte>)
    requires Arranged(rs, |header|)
    requires forall i :: 0 <= i < |rs| && rs[i].data != [] ==> NotAllZero(rs[i].data)
    ensures Restored(Saved(header, rs, overlay), rs) <==> Covered(rs, FinalPos(header, rs, overlay))
  {
    var file := Saved(header, rs, overlay);
    if Covered(rs, FinalPos(header, rs, overlay)) {
      RestoredWhenCovered(header, rs, overlay);
    } else {
      var i, k := LostByte(header, rs, overlay);
      assert ReadBack(file, rs[i].at, rs[i].size)[k] == 0;
      assert Image(rs[i])[k] != 0;
    }
  }

  /** Headers survive: no section write reaches below them, and the cut never does either. */
  lemma HeaderKept(header: seq<Byte>, rs: seq<Raw>, overlay: seq<Byte>)
    requires Arranged(rs, |header|)
    ensures |header| <= |Saved(header, rs, overlay)| && Saved(header, rs, overlay)[..|header|] == header
  {
    WrittenProgress(header, rs, overlay);
    var w := Written(header, rs, overlay);
    assert |header| <= w.pos;
    forall k | 0 <= k < |header| ensures w.bytes[k] == header[k] {
      assert ByteAt(w.bytes, k) == header[k];
    }
  }

  // ------------------------------------------------------------------ when nothing is cut off

  lemma {:induction false} WriteAllSnoc(w: Writer, rs: seq<Raw>, r: Raw)
    ensures WriteAll(w, rs + [r]) == WriteSection(WriteAll(w, rs), r)
    decreases |rs|
  {
    if rs != [] {
      WriteAllSnoc(WriteSection(w, rs[0]), rs[1..], r);
      assert (rs + [r])[1..] == rs[1..] + [r];
    }
  }

  /** When the section written last has data, the cut is harmless exactly if that section needed
      padding or lies behind all others in the file. */
  lemma CoveredIffLastSafe(header: seq<Byte>, rs: seq<Raw>)
    requires Arranged(rs, |header|) && rs != [] && rs[|rs| - 1].data != []
    ensures var last := rs[|rs| - 1];
      Covered(rs, FinalPos(header, rs, [])) <==> |last.data| < last.size || Covered(rs, last.End())
  {
    var n, w0 := |rs| - 1, Writer(header, |header|, |header|);
    var last := rs[n];
    assert rs == rs[..n] + [last];
    WriteAllSnoc(w0, rs[..n], last);
    WrittenProgress(header, rs, []);
    var w := WriteAll(w0, rs);
    if |last.data| < last.size {
      assert w.pos == w.offset;
    } else {
      assert w.pos == last.End();
    }
  }

  ghost predicate LastWithData(rs: seq<Raw>, l: nat) {
    l < |rs| && rs[l].data != [] && forall i :: l < i < |rs| ==> rs[i].data == []
  }

  /** The last section of the list that has data is shorter than its raw size, or no section with data
      ends behind it in the file. */
  ghost predicate TailSafe(rs: seq<Raw>) {
    forall l :: 0 <= l < |rs| && LastWithData(rs, l) ==> |rs[l].data| < rs[l].size || Covered(rs, rs[l].End())
  }

  /** Sections follow each other without gaps: each starts where the first one does or where one with
      data ends. */
  ghost predicate Tight(rs: seq<Raw>, first: nat) {
    forall i :: 0 <= i < |rs| ==>
      first <= rs[i].at
        && (rs[i].at == first || exists j :: 0 <= j < |rs| && rs[j].data != [] && rs[i].at == rs[j].End())
  }

  /** Without an overlay, the cut is harmless exactly if the tail of the list is safe. */
  lemma CoveredIffTailSafe(header: seq<Byte>, rs: seq<Raw>, first: nat)
    requires Arranged(rs, |header|) && Tight(rs, first)
    ensures Covered(rs, FinalPos(header, rs, [])) <==> TailSafe(rs)
  {
    if exists l :: 0 <= l < |rs| && LastWithData(rs, l) {
      var l :| 0 <= l < |rs| && LastWithData(rs, l);
      TailDecides(header, rs, first, l);
    } else {
      NoData(rs);
    }
  }

  lemma TailDecides(header: seq<Byte>, rs: seq<Raw>, first: nat, l: nat)
    requires Arranged(rs, |header|) && Tight(rs, first) && l < |rs| && LastWithData(rs, l)
    ensures Covered(rs, FinalPos(header, rs, [])) <==> TailSafe(rs)
  {
    hide Arranged, Tight, Covered, FinalPos, TailSafe, LastWithData;
    OnlyLast(rs, l);
    ArrangedFront(header, rs, l);
    CoveredIffLastSafe(header, rs[..l + 1]);
    TailKeepsPos(header, rs, first, l);
    CoveredFront(rs, l, FinalPos(header, rs, []));
    CoveredFront(rs, l, rs[l].End());
  }

  lemma OnlyLast(rs: seq<Raw>, l: nat)
    requires l < |rs| && LastWithData(rs, l)
    ensures TailSafe(rs) <==> |rs[l].data| < rs[l].size || Covered(rs, rs[l].End())
    ensures rs[l].data != [] && rs[..l + 1][l] == rs[l]
  {
    hide Covered;
    assert forall k :: 0 <= k < |rs| && LastWithData(rs, k) ==> k == l;
  }

  lemma ArrangedFront(header: seq<Byte>, rs: seq<Raw>, l: nat)
    requires Arranged(rs, |header|) && l < |rs|
    ensures Arranged(rs[..l + 1], |header|)
  {
    assert forall i :: 0 <= i <= l ==> rs[..l + 1][i] == rs[i];
  }

  lemma CoveredFront(rs: seq<Raw>, l: nat, pos: nat)
    requires l < |rs| && LastWithData(rs, l)
    ensures Covered(rs[..l + 1], pos) <==> Covered(rs, pos)
  {
    assert forall i :: 0 <= i <= l ==> rs[..l + 1][i] == rs[i];
  }

  lemma {:induction false} NoData(rs: seq<Raw>)
    requires forall l :: 0 <= l < |rs| ==> !LastWithData(rs, l)
    ensures forall i :: 0 <= i < |rs| ==> rs[i].data == []
  {
    if rs != [] {
      var n := |rs| - 1;
      assert !LastWithData(rs, n);
      forall l | 0 <= l < n ensures !LastWithData(rs[..n], l) {
        assert !LastWithData(rs, l);
      }
      NoData(rs[..n]);
      assert forall i :: 0 <= i < n ==> rs[..n][i] == rs[i];
    }
  }

  /** Sections without data behind the last one that has some do not move the file pointer. */
  lemma TailKeepsPos(header: seq<Byte>, rs: seq<Raw>, first: nat, l: nat)
    requires Arranged(rs, |header|) && Tight(rs, first) && l < |rs| && LastWithData(rs, l)
    ensures FinalPos(header, rs, []) == FinalPos(header, rs[..l + 1], [])
  {
    hide WriteAll, Arranged, Tight, LastWithData;
    var w0, front := Writer(header, |header|, |header|), rs[..l + 1];
    var w := WriteAll(w0, front);
    EndsWritten(header, rs, l);
    TailBelow(rs, rs[l + 1..], first, l, w.offset);
    WriteAllParts(w0, front, rs[l + 1..]);
    assert front + rs[l + 1..] == rs;
    NothingWritten(w, rs[l + 1..]);
  }

  lemma EndsWritten(header: seq<Byte>, rs: seq<Raw>, l: nat)
    requires Arranged(rs, |header|) && l < |rs|
    ensures forall j :: 0 <= j <= l ==> rs[j].End() <= WriteAll(Writer(header, |header|, |header|), rs[..l + 1]).offset
  {
    hide WriteAll, Holds, Blank;
    var front := rs[..l + 1];
    WrittenProgress(header, front, []);
    forall j | 0 <= j <= l ensures rs[j].End() <= WriteAll(Writer(header, |header|, |header|), front).offset {
      assert front[j] == rs[j];
    }
  }

  lemma TailBelow(rs: seq<Raw>, tail: seq<Raw>, first: nat, l: nat, offset: nat)
    requires l < |rs| && tail == rs[l + 1..]
    requires Tight(rs, first) && LastWithData(rs, l) && forall j :: 0 <= j <= l ==> rs[j].End() <= offset
    ensures forall i :: 0 <= i < |tail| ==> tail[i].at <= offset && tail[i].data == []
  {
    forall i | l < i < |rs| ensures rs[i].at <= offset && rs[i].data == [] {
      assert first <= rs[l].at;
    }
  }

  lemma {:induction false} WriteAllParts(w: Writer, a: seq<Raw>, b: seq<Raw>)
    ensures WriteAll(w, a + b) == WriteAll(WriteAll(w, a), b)
    decreases |a|
  {
    if a == [] {
      assert a + b == b;
    } else {
      assert (a + b)[1..] == a[1..] + b;
      WriteAllParts(WriteSection(w, a[0]), a[1..], b);
    }
  }

  lemma {:induction false} NothingWritten(w: Writer, rs: seq<Raw>)
    requires forall i :: 0 <= i < |rs| ==> rs[i].at <= w.offset && rs[i].data == []
    ensures WriteAll(w, rs) == w
  {
    if rs != [] {
      assert WriteSection(w, rs[0]) == w;
      NothingWritten(w, rs[1..]);
    }
  }

  /** Sections written in file order are never cut. */
  lemma {:induction false} InOrderPos(w: Writer, rs: seq<Raw>, n: nat)
    requires n <= |rs| && w.pos == w.offset
    requires forall i :: 0 <= i < |rs| ==> 0 < rs[i].at && rs[i].Fits()
    requires forall i, j :: 0 <= i < j < |rs| ==> rs[i].End() <= rs[j].at
    requires n < |rs| ==> w.offset <= rs[n].at
    ensures WriteAll(w, rs[n..]).pos == WriteAll(w, rs[n..]).offset
    decreases |rs| - n
  {
    if n < |rs| {
      InOrderPos(WriteSection(w, rs[n]), rs, n + 1);
      assert rs[n..][1..] == rs[n + 1..];
    }
  }

  lemma CoveredInOrder(header: seq<Byte>, rs: seq<Raw>, overlay: seq<Byte>)
    requires Arranged(rs, |header|)
    requires forall i, j :: 0 <= i < j < |rs| ==> rs[i].End() <= rs[j].at
    ensures Covered(rs, FinalPos(header, rs, overlay))
  {
    WrittenProgress(header, rs, overlay);
    InOrderPos(Writer(header, |header|, |header|), rs, 0);
    assert rs[0..] == rs;
  }

  /** An overlay behind the sections keeps the cut away from them. */
  lemma CoveredByOverlay(header: seq<Byte>, rs: seq<Raw>, overlay: seq<Byte>)
    requires Arranged(rs, |header|) && overlay != []
    ensures Covered(rs, FinalPos(header, rs, overlay))
  {
    WrittenProgress(header, rs, []);
  }
}
