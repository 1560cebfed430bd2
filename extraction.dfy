/**
 * Carving a documentation block out of raw generated text, using the
 * triple-quote marker as the delimiter.  Both extraction rules of the
 * repository live here: the lenient rule of `generate_docstring`
 * (autodocstring.py), where a missing closing marker means "up to the end",
 * and the strict rule of the early draft (main.py), where it means failure.
 */
module Extraction {
  import opened Wrappers

  /** The distinguished delimiter: three double quotes. */
  const Marker: string := "\"\"\""

  /** A marker starts at index `k` of `s`. */
  predicate MarkerAt(s: string, k: int) {
    0 <= k && k + 3 <= |s| && s[k] == Marker[0] && s[k + 1] == Marker[1] && s[k + 2] == Marker[2]
  }

  /** `s` has a marker somewhere. */
  predicate ContainsMarker(s: string) {
    exists k :: 0 <= k < |s| && MarkerAt(s, k)
  }

  /**
   * Python's `s.find('"""', from)` for a non-negative start: the lowest index
   * at or after `from` where a marker starts, or -1 when there is none.
   */
  function Find(s: string, from: nat): (k: int)
    ensures k == -1 || (from <= k && MarkerAt(s, k))
    ensures forall m :: from <= m < (if k == -1 then |s| else k) ==> !MarkerAt(s, m)
    decreases |s| - from
  {
    if from + |Marker| > |s| then -1
    else if MarkerAt(s, from) then from
    else Find(s, from + 1)
  }

  /** A slice that holds no marker start inside it holds no marker. */
  lemma NoMarkerInSlice(s: string, a: nat, b: nat)
    requires a <= b <= |s|
    requires forall m :: a <= m < b ==> !MarkerAt(s, m)
    ensures !ContainsMarker(s[a..b])
  {
    var t := s[a..b];
    forall k | 0 <= k < |t| && MarkerAt(t, k)
      ensures false
    {
      assert MarkerAt(s, a + k);
    }
  }

  /**
   * The rule of `generate_docstring`: the text strictly between the first
   * marker and the next marker at or after the end of the first one; with no
   * closing marker, everything after the opening marker.  No opening marker
   * gives None.
   */
  function ExtractLenient(raw: string): (r: Option<string>)
    ensures r.None? <==> Find(raw, 0) == -1
    ensures r.Some? ==> |r.value| + |Marker| <= |raw|
  {
    var opening := Find(raw, 0);
    if opening == -1 then
      None
    else
      var start := opening + |Marker|;
      var closing := Find(raw, start);
      Some(raw[start..if closing == -1 then |raw| else closing])
  }

  /**
   * The lenient rule finds nothing exactly when the response has no marker,
   * and what it extracts never contains a marker.
   */
  lemma LenientSpec(raw: string)
    ensures ExtractLenient(raw).None? <==> !ContainsMarker(raw)
    ensures ExtractLenient(raw).Some? ==> !ContainsMarker(ExtractLenient(raw).value)
  {
    var opening := Find(raw, 0);
    if opening != -1 {
      var start := opening + |Marker|;
      var closing := Find(raw, start);
      NoMarkerInSlice(raw, start, if closing == -1 then |raw| else closing);
    }
  }

  /** Why the strict rule found nothing. */
  datatype Missing = NoOpeningMarker | NoClosingMarker

  /**
   * The rule of the early draft in main.py: the same slice as the lenient
   * rule, but a missing closing marker is a failure.
   */
  function ExtractStrict(raw: string): (r: Result<string, Missing>)
    ensures r == Failure(NoOpeningMarker) <==> Find(raw, 0) == -1
    ensures r.Success? ==> |r.value| + 2 * |Marker| <= |raw|
  {
    var opening := Find(raw, 0);
    if opening == -1 then
      Failure(NoOpeningMarker)
    else
      var start := opening + |Marker|;
      var closing := Find(raw, start);
      if closing == -1 then Failure(NoClosingMarker) else Success(raw[start..closing])
  }

  /**
   * The strict rule reports a missing opening marker exactly when the
   * response has no marker, and what it extracts never contains a marker.
   */
  lemma StrictSpec(raw: string)
    ensures ExtractStrict(raw) == Failure(NoOpeningMarker) <==> !ContainsMarker(raw)
    ensures ExtractStrict(raw).Success? ==> !ContainsMarker(ExtractStrict(raw).value)
  {
    var opening := Find(raw, 0);
    if opening != -1 {
      var start := opening + |Marker|;
      var closing := Find(raw, start);
      if closing != -1 {
        NoMarkerInSlice(raw, start, closing);
      }
    }
  }

  /**
   * Reference characterisation of the lenient rule with both markers: if the
   * first marker is at `i` and the first marker at or after `i + 3` is at `j`,
   * the result is exactly `raw[i+3..j]`.
   */
  lemma LenientBetweenMarkers(raw: string, i: nat, j: nat)
    requires MarkerAt(raw, i) && forall m :: 0 <= m < i ==> !MarkerAt(raw, m)
    requires i + |Marker| <= j && MarkerAt(raw, j)
    requires forall m :: i + |Marker| <= m < j ==> !MarkerAt(raw, m)
    ensures ExtractLenient(raw) == Some(raw[i + |Marker|..j])
    ensures ExtractStrict(raw) == Success(raw[i + |Marker|..j])
  {
    var opening := Find(raw, 0);
    assert opening == i;
    var closing := Find(raw, i + |Marker|);
    assert closing == j;
  }

  /**
   * The implicit close: the first marker is at `i` and no marker starts at or
   * after `i + 3`.  The lenient rule returns the whole tail, the strict rule
   * reports the missing closing marker.
   */
  lemma LenientImplicitClose(raw: string, i: nat)
    requires MarkerAt(raw, i) && forall m :: 0 <= m < i ==> !MarkerAt(raw, m)
    requires forall m :: i + |Marker| <= m < |raw| ==> !MarkerAt(raw, m)
    ensures ExtractLenient(raw) == Some(raw[i + |Marker|..])
    ensures ExtractStrict(raw) == Failure(NoClosingMarker)
  {
    var opening := Find(raw, 0);
    assert opening == i;
    assert raw[i + |Marker|..|raw|] == raw[i + |Marker|..];
  }

  /** Whatever the lenient rule extracts is one contiguous slice of the response. */
  lemma LenientIsSlice(raw: string)
    requires ExtractLenient(raw).Some?
    ensures exists a, b :: 0 <= a <= b <= |raw| && ExtractLenient(raw).value == raw[a..b]
  {
    var opening := Find(raw, 0);
    var start := opening + |Marker|;
    var closing := Find(raw, start);
    var end := if closing == -1 then |raw| else closing;
    assert ExtractLenient(raw).value == raw[start..end];
  }

  /**
   * The two rules agree whenever the strict rule succeeds, and they fail on
   * exactly the same responses for want of an opening marker; the only
   * difference is a response with an opening marker and no closing one, where
   * the lenient rule returns the tail of the response.
   */
  lemma StrictAgreesWithLenient(raw: string)
    ensures ExtractStrict(raw).Success? ==> ExtractLenient(raw) == Some(ExtractStrict(raw).value)
    ensures ExtractStrict(raw) == Failure(NoOpeningMarker) <==> ExtractLenient(raw) == None
    ensures ExtractStrict(raw) == Failure(NoClosingMarker) ==>
              exists i :: 0 <= i <= |raw| && ExtractLenient(raw) == Some(raw[i..])
  {
    var opening := Find(raw, 0);
    if opening != -1 {
      var closing := Find(raw, opening + |Marker|);
      if closing == -1 {
        assert raw[opening + |Marker|..|raw|] == raw[opening + |Marker|..];
      }
    }
  }

  /** Appending a marker after the end does not change a slice taken before it. */
  lemma AppendMarkerKeepsSlice(raw: string, start: nat)
    requires start <= |raw|
    ensures (raw + Marker)[start..|raw|] == raw[start..|raw|]
  {
  }
}
