/** The file listing of the captured-metrics package: one row per file of
    the chosen folder, its size shown in whole kilobytes or megabytes. */
module FileListing {
  import opened Wrappers
  import opened TraceModel
  import opened Numerals
  import opened Display

  /** `FileMetadata`: what the listing keeps of a file */
  datatype FileMetadata = FileMetadata(name: string, created: Ticks, lastModified: Ticks, size: nat)

  datatype ListingRow = ListingRow(name: string, created: Ticks, lastModified: Ticks, size: string)

  /** What a size text must say about a byte count: it reads back as a
      figure and a unit, kilobytes exactly below one MiB, and the figure is
      the byte count rounded up to whole units */
  predicate SizeDescribes(text: string, bytes: nat) {
    match ParseSizeLabel(text)
    case None => false
    case Some((figure, unit)) =>
      && (unit == OneKiB || unit == OneMiB)
      && (unit == OneKiB <==> bytes < OneMiB)
      && figure * unit >= bytes
      && (figure == 0 || (figure - 1) * unit < bytes)
  }

  /** `GetNextPage`: one row per listed file, in listing order */
  method GetNextPage(files: seq<FileMetadata>) returns (rows: seq<ListingRow>)
    ensures |rows| == |files|
    ensures forall k :: 0 <= k < |files| ==>
              && rows[k].name == files[k].name
              && rows[k].created == files[k].created
              && rows[k].lastModified == files[k].lastModified
              && SizeDescribes(rows[k].size, files[k].size)
    ensures forall k :: 0 <= k < |files| ==> rows[k].size == SizeLabel(files[k].size)
  {
    rows := [];
    var i := 0;
    while i < |files|
      invariant 0 <= i <= |files| && |rows| == i
      invariant forall k :: 0 <= k < i ==>
                  rows[k] == ListingRow(files[k].name, files[k].created, files[k].lastModified, SizeLabel(files[k].size))
    {
      var f := files[i];
      rows := rows + [ListingRow(f.name, f.created, f.lastModified, SizeLabel(f.size))];
      i := i + 1;
    }
    forall k | 0 <= k < |files|
      ensures SizeDescribes(rows[k].size, files[k].size)
    {
      SizeLabelBrackets(files[k].size);
    }
  }

  /** A size text describes one byte count per unit-sized bucket: two sizes
      get the same text exactly when they round up to the same figure of
      the same unit */
  lemma SizeTextDeterminesBucket(a: nat, b: nat)
    requires SizeLabel(a) == SizeLabel(b)
    ensures (a < OneMiB <==> b < OneMiB)
    ensures a < OneMiB ==> CeilDiv(a, OneKiB) == CeilDiv(b, OneKiB)
    ensures a >= OneMiB ==> CeilDiv(a, OneMiB) == CeilDiv(b, OneMiB)
  {
    SizeLabelBrackets(a);
    SizeLabelBrackets(b);
    var shown := SizeLabel(a);
    NatToStringRoundTrip(CeilDiv(a, if a < OneMiB then OneKiB else OneMiB));
    NatToStringRoundTrip(CeilDiv(b, if b < OneMiB then OneKiB else OneMiB));
  }
}
