/** Extraction of the presence element from the page fetched by sms112_geodata_get. */
module Geodata {
  import opened Errno
  import opened Text

  const OPEN := "<presence"
  const CLOSE := "</presence>"

  const URL_SIZE := 2048

  /** The substring from the first opening tag through the first closing tag at or after it. */
  function Extract(page: string): (r: Option<string>)
  {
    match Find(page, OPEN, 0)
    case None => None
    case Some(start) =>
      match Find(page, CLOSE, start)
      case None => None
      case Some(end) => Some(page[start..end + |CLOSE|])
  }

  /**
   sms112_geodata_get: `urlLen` is what snprintf returned, `rc` and `page` what the HTTP client returned. An error of
   snprintf, which is negative, compares as too long.
   */
  method Get(caller: Option<string>, urlLen: int, rc: int, page: string, geodata: StringRef) returns (ret: int)
    modifies geodata
    ensures ret == 0 <==> caller.Some? && 0 <= urlLen < URL_SIZE && rc == 0 && Extract(page).Some?
    ensures ret == 0 ==> Extract(page) == Some(geodata.s)
    ensures caller.None? || !(0 <= urlLen < URL_SIZE) ==> ret == EINVAL
    ensures caller.Some? && 0 <= urlLen < URL_SIZE ==> ret == if rc != 0 then rc else if Extract(page).Some? then 0 else -1
    ensures ret != 0 ==> geodata.s == old(geodata.s)
  {
    if caller.None? {
      return EINVAL;
    }
    if !(0 <= urlLen < URL_SIZE) {
      return EINVAL;
    }
    ret := rc;
    if ret == 0 {
      var start := Find(page, OPEN, 0);
      if start.Some? {
        var len := Find(page, CLOSE, start.value);
        if len.Some? {
          var count := len.value + 11 - start.value;
          geodata.s := page[start.value..start.value + count];
        } else {
          ret := -1;
        }
      } else {
        ret := -1;
      }
    }
  }

  /** The two tags cannot overlap. */
  lemma TagsApart(page: string, i: int, j: int)
    requires OccursAt(page, OPEN, i) && OccursAt(page, CLOSE, j) && i <= j
    ensures i + |OPEN| <= j
  {
    forall k | i <= k < i + |OPEN|
      ensures page[k] == OPEN[k - i]
    {
      assert page[i..i + |OPEN|][k - i] == page[k];
    }
    assert page[j] == page[j..j + |CLOSE|][0] == '<';
    assert page[j + 1] == page[j..j + |CLOSE|][1] == '/';
    assert page[i + 1] == page[i..i + |OPEN|][1] == 'p';
  }

  /** What is extracted: it begins at the first opening tag, ends with the first closing tag after it, and holds both. */
  lemma ExtractBounds(page: string) returns (start: nat, end: nat)
    requires Extract(page).Some?
    ensures start + 20 <= end <= |page| && Extract(page).value == page[start..end]
    ensures Find(page, OPEN, 0) == Some(start) && Find(page, CLOSE, start) == Some(end - 11)
  {
    start := Find(page, OPEN, 0).value;
    end := Find(page, CLOSE, start).value + |CLOSE|;
    TagsApart(page, start, end - 11);
  }

  lemma ExtractIs(page: string, start: nat, end: nat)
    requires Find(page, OPEN, 0) == Some(start) && 11 <= end && Find(page, CLOSE, start) == Some(end - 11)
    ensures end <= |page| && Extract(page) == Some(page[start..end])
  {
  }

  /** Extraction fails exactly when no closing tag follows any opening tag. */
  lemma ExtractFails(page: string)
    ensures Extract(page).None? <==> forall i, j :: OccursAt(page, OPEN, i) && OccursAt(page, CLOSE, j) ==> j < i
  {
    var first := Find(page, OPEN, 0);
    if Extract(page).Some? {
      var start, end := ExtractBounds(page);
    }
  }

  lemma ExtractIdempotent(page: string)
    requires Extract(page).Some?
    ensures Extract(Extract(page).value) == Extract(page)
  {
    var start, end := ExtractBounds(page);
    var g := page[start..end];
    assert Find(page, OPEN, start) == Some(start) by { FindIs(page, OPEN, start, start); }
    FindNarrow(page, OPEN, start, end, start, start);
    FindNarrow(page, CLOSE, start, end, start, end - 11);
    assert g[0..|g|] == g;
  }

  lemma ExtractIgnoresTail(page: string, tail: string)
    requires Extract(page).Some?
    ensures Extract(page + tail) == Extract(page)
  {
    var start, end := ExtractBounds(page);
    FindAppended(page, tail, OPEN, 0, start);
    FindAppended(page, tail, CLOSE, start, end - 11);
    assert (page + tail)[start..end] == page[start..end];
  }

  lemma FindAppended(page: string, tail: string, tag: string, from: nat, at: nat)
    requires Find(page, tag, from) == Some(at)
    ensures Find(page + tail, tag, from) == Some(at)
  {
    assert (page + tail)[0..|page|] == page;
    FindWiden(page + tail, tag, 0, |page|, from, at);
  }
}
