/**
 The archiver (`create_zip_from_buffers`). The ZIP container and its deflate
 compression are not part of the model: an archive is the ordered list of
 (entry name, entry bytes) pairs written into it.
 */
module Archiver {

  import opened Optional
  import opened Text
  import opened Converter

  datatype Entry = Entry(name: string, data: Bytes)

  type Archive = seq<Entry>

  const EntryPrefix: string := "converted_"

  /** The name of the entry at 0-based position `index`:
      "converted_" + str(index + 1) + "." + outputFormat.lower(). */
  function EntryName(index: nat, outputFormat: string): (name: string)
    ensures ParseEntryName(name, outputFormat) == Some(index)
  {
    var digits := NatToString(index + 1);
    var suffix := "." + Lower(outputFormat);
    var name := EntryPrefix + digits + suffix;
    assert name[..|EntryPrefix|] == EntryPrefix;
    assert name[|name| - |suffix|..] == suffix;
    assert name[|EntryPrefix|..|name| - |suffix|] == digits;
    DecimalRoundTrip(index + 1);
    name
  }

  /** How an entry name is spelled, for computing concrete names. */
  lemma EntryNameSpelled(index: nat, outputFormat: string)
    ensures EntryName(index, outputFormat) == EntryPrefix + NatToString(index + 1) + "." + Lower(outputFormat)
  {
  }

  /** Reads the 0-based position back out of an entry name, if it is one. */
  function ParseEntryName(name: string, outputFormat: string): Option<nat> {
    var suffix := "." + Lower(outputFormat);
    if |name| < |EntryPrefix| + |suffix|
       || name[..|EntryPrefix|] != EntryPrefix
       || name[|name| - |suffix|..] != suffix
    then None
    else
      match ParseDecimal(name[|EntryPrefix|..|name| - |suffix|])
      case Some(n) => if n >= 1 then Some(n - 1) else None
      case None => None
  }

  /** Only the entry name of a position parses to that position. */
  lemma EntryNameRoundTripBack(name: string, outputFormat: string, index: nat)
    requires ParseEntryName(name, outputFormat) == Some(index)
    ensures EntryName(index, outputFormat) == name
  {
    var suffix := "." + Lower(outputFormat);
    var digits := name[|EntryPrefix|..|name| - |suffix|];
    assert ParseDecimal(digits) == Some(index + 1);
    DecimalRoundTripBack(digits, index + 1);
    assert name == name[..|EntryPrefix|] + digits + name[|name| - |suffix|..];
  }

  /** Different positions get different names, whatever the output format. */
  lemma EntryNamesDistinct(j: nat, k: nat, outputFormat: string)
    requires j != k
    ensures EntryName(j, outputFormat) != EntryName(k, outputFormat)
  {
  }

  /** `entries` is what the archiver writes for `buffers`: one entry per
      buffer, in order, named by position, holding that buffer's bytes. */
  predicate IsArchiveOf(entries: Archive, buffers: seq<Bytes>, outputFormat: string) {
    && |entries| == |buffers|
    && forall k :: 0 <= k < |entries| ==> entries[k] == Entry(EntryName(k, outputFormat), buffers[k])
  }

  /** No two entries of the archive share a name. */
  predicate NamesDistinct(entries: Archive) {
    forall j, k :: 0 <= j < k < |entries| ==> entries[j].name != entries[k].name
  }

  /** `create_zip_from_buffers(buffers, outputFormat)`: the enumerate loop
      writing one entry per buffer. An empty list gives an empty archive. */
  method CreateZip(buffers: seq<Bytes>, outputFormat: string) returns (entries: Archive)
    ensures IsArchiveOf(entries, buffers, outputFormat)
    ensures NamesDistinct(entries)
  {
    entries := [];
    var i := 0;
    while i < |buffers|
      invariant 0 <= i <= |buffers|
      invariant IsArchiveOf(entries, buffers[..i], outputFormat)
      invariant NamesDistinct(entries)
    {
      var fileName := EntryName(i, outputFormat);
      forall j | 0 <= j < |entries|
        ensures entries[j].name != fileName
      {
        EntryNamesDistinct(j, i, outputFormat);
      }
      entries := entries + [Entry(fileName, buffers[i])];
      i := i + 1;
    }
    assert buffers[..i] == buffers;
  }

  /** The archive of `buffers` has pairwise distinct entry names. */
  lemma ArchiveNamesDistinct(entries: Archive, buffers: seq<Bytes>, outputFormat: string)
    requires IsArchiveOf(entries, buffers, outputFormat)
    ensures NamesDistinct(entries)
  {
    forall j, k | 0 <= j < k < |entries|
      ensures entries[j].name != entries[k].name
    {
      EntryNamesDistinct(j, k, outputFormat);
    }
  }

  /** Reading an entry by name: the bytes of the first entry so named at or
      after position `from`. */
  function LookupFrom(entries: Archive, name: string, from: nat): Option<Bytes>
    decreases |entries| - from
  {
    if from >= |entries| then None
    else if entries[from].name == name then Some(entries[from].data)
    else LookupFrom(entries, name, from + 1)
  }

  function Lookup(entries: Archive, name: string): Option<Bytes> {
    LookupFrom(entries, name, 0)
  }

  /** What the archive holds under a name at or after position `from`. */
  function ContentAt(buffers: seq<Bytes>, name: string, outputFormat: string, from: nat): Option<Bytes> {
    match ParseEntryName(name, outputFormat)
    case Some(k) => if from <= k < |buffers| then Some(buffers[k]) else None
    case None => None
  }

  lemma {:induction false} LookupFromArchive(entries: Archive, buffers: seq<Bytes>, outputFormat: string, name: string, from: nat)
    requires IsArchiveOf(entries, buffers, outputFormat)
    ensures LookupFrom(entries, name, from) == ContentAt(buffers, name, outputFormat, from)
    decreases |entries| - from
  {
    if from < |entries| {
      if entries[from].name != name {
        LookupFromArchive(entries, buffers, outputFormat, name, from + 1);
        match ParseEntryName(name, outputFormat)
        case Some(k) =>
          if k == from {
            EntryNameRoundTripBack(name, outputFormat, k);
          }
        case None =>
      }
    }
  }

  /** The archive's contents by name: the name of position k yields exactly
      buffer k, and every other name yields nothing. */
  lemma ArchiveContents(entries: Archive, buffers: seq<Bytes>, outputFormat: string, name: string)
    requires IsArchiveOf(entries, buffers, outputFormat)
    ensures Lookup(entries, name) ==
      match ParseEntryName(name, outputFormat)
      case Some(k) => if k < |buffers| then Some(buffers[k]) else None
      case None => None
  {
    LookupFromArchive(entries, buffers, outputFormat, name, 0);
  }

  /** Reading entry k of the archive gives back buffer k. */
  lemma ArchiveReadBack(entries: Archive, buffers: seq<Bytes>, outputFormat: string, k: nat)
    requires IsArchiveOf(entries, buffers, outputFormat)
    requires k < |buffers|
    ensures Lookup(entries, EntryName(k, outputFormat)) == Some(buffers[k])
  {
    ArchiveContents(entries, buffers, outputFormat, EntryName(k, outputFormat));
  }
}
