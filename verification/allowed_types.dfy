/** The allow-list of a `FileUpload`: an ordered PHP array whose keys are file
    extensions (no leading dot) and whose values are MIME types. PHP arrays keep
    insertion order and have unique keys; several extensions may share a MIME
    type, so order decides which one a reverse lookup reports. */
module AllowedTypes {
  import opened Results

  /** One allow-list entry: (extension, MIME type). */
  type Entry = (string, string)

  /** No two entries share an extension, as in any PHP array. */
  predicate UniqueKeys(l: seq<Entry>) {
    forall i, j :: 0 <= i < j < |l| ==> l[i].0 != l[j].0
  }

  /** No two entries share a MIME type. */
  predicate UniqueValues(l: seq<Entry>) {
    forall i, j :: 0 <= i < j < |l| ==> l[i].1 != l[j].1
  }

  /** An allow-list as PHP can hold it. */
  type AllowList = l: seq<Entry> | UniqueKeys(l) witness []

  /** No entry before position `n` has MIME type `mime`. */
  predicate NoMatchBefore(l: seq<Entry>, mime: string, n: int) {
    forall j :: 0 <= j < n && j < |l| ==> l[j].1 != mime
  }

  /** `ext` is the extension of the first entry, in list order, whose MIME
      type is exactly `mime`: the answer a strict in-order search must give. */
  ghost predicate IsFirstMatch(l: seq<Entry>, mime: string, ext: string) {
    exists i :: 0 <= i < |l| && l[i] == (ext, mime) && NoMatchBefore(l, mime, i)
  }

  /** Position of the first entry whose MIME type is `mime`. */
  function ValueIndex(l: seq<Entry>, mime: string): (r: Option<nat>)
    ensures r.Some? ==> r.value < |l| && l[r.value].1 == mime && NoMatchBefore(l, mime, r.value)
    ensures r.None? ==> NoMatchBefore(l, mime, |l|)
    decreases |l|
  {
    if |l| == 0 then None
    else if l[0].1 == mime then Some(0)
    else
      match ValueIndex(l[1..], mime)
      case None => None
      case Some(i) => Some(i + 1)
  }

  /** Position of the entry whose extension is `ext`. */
  function KeyIndex(l: seq<Entry>, ext: string): (r: Option<nat>)
    ensures r.Some? ==> r.value < |l| && l[r.value].0 == ext
    ensures r.None? ==> forall j :: 0 <= j < |l| ==> l[j].0 != ext
    decreases |l|
  {
    if |l| == 0 then None
    else if l[0].0 == ext then Some(0)
    else
      match KeyIndex(l[1..], ext)
      case None => None
      case Some(i) => Some(i + 1)
  }

  /** `$types[$ext]`: the MIME type the allow-list assigns to an extension. */
  function Lookup(l: AllowList, ext: string): (r: Option<string>)
    ensures r.None? <==> forall j :: 0 <= j < |l| ==> l[j].0 != ext
    ensures forall j :: 0 <= j < |l| && l[j].0 == ext ==> r == Some(l[j].1)
  {
    match KeyIndex(l, ext)
    case None => None
    case Some(i) => Some(l[i].1)
  }

  /** `array_search($mime, $types, true)`: the key of the first entry whose
      value is identical to `mime`, or `None` (PHP's `false`). */
  function Search(l: seq<Entry>, mime: string): (r: Option<string>)
    ensures r.None? <==> NoMatchBefore(l, mime, |l|)
    ensures r.Some? ==> IsFirstMatch(l, mime, r.value)
  {
    match ValueIndex(l, mime)
    case None => None
    case Some(i) => Some(l[i].0)
  }

  /** The first match is unique: an extension is reported iff it is the first
      match for that MIME type. */
  lemma SearchIsFirstMatch(l: seq<Entry>, mime: string, ext: string)
    ensures Search(l, mime) == Some(ext) <==> IsFirstMatch(l, mime, ext)
  {
  }

  /** The extension a reverse lookup reports really maps back to the MIME
      type that was searched for. */
  lemma SearchThenLookup(l: AllowList, mime: string, ext: string)
    requires Search(l, mime) == Some(ext)
    ensures Lookup(l, ext) == Some(mime)
  {
  }

  /** Every MIME type the allow-list assigns is found by the reverse lookup,
      at an entry no later than the one it was assigned by; when MIME types
      are unique the reverse lookup gives back the very same extension. */
  lemma LookupThenSearch(l: AllowList, ext: string, mime: string)
    requires Lookup(l, ext) == Some(mime)
    ensures Search(l, mime).Some?
    ensures UniqueValues(l) ==> Search(l, mime) == Some(ext)
  {
  }

  /** Order decides ties: when two entries share a MIME type, the later one
      is never reported; the search stops at or before the earlier one. */
  lemma TieBreakFollowsOrder(l: AllowList, i: int, j: int)
    requires 0 <= i < j < |l| && l[i].1 == l[j].1
    ensures Search(l, l[j].1) != Some(l[j].0)
    ensures ValueIndex(l, l[j].1).Some? && ValueIndex(l, l[j].1).value <= i
  {
  }

  /** `array_search` with `strict = true`, as the in-order scan PHP performs. */
  method ArraySearchStrict(l: seq<Entry>, mime: string) returns (r: Option<string>)
    ensures r == Search(l, mime)
    ensures r.Some? ==> exists i :: 0 <= i < |l| && l[i] == (r.value, mime)
  {
    var i := 0;
    while i < |l|
      invariant 0 <= i <= |l|
      invariant NoMatchBefore(l, mime, i)
    {
      if l[i].1 == mime {
        assert ValueIndex(l, mime) == Some(i);
        return Some(l[i].0);
      }
      i := i + 1;
    }
    return None;
  }
}
