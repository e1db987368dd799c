/** The two size guards of one refactoring attempt: the candidate ADL is cut
    before it crosses the process boundary, and the diagnostic message of a
    failed attempt is cut before it is logged. */
module Bounds {
  import opened Wrappers

  /** Ceiling on the candidate ADL, in characters (10 MiB). */
  const MaxAdlChars: nat := 10 * 1024 * 1024
  /** Appended to a candidate ADL that was cut. */
  const AdlMarker: string := "\n... [truncated]"
  /** Ceiling on a diagnostic message, in characters. */
  const MaxErrorChars: nat := 1000
  /** Appended to a diagnostic message that was cut. */
  const ErrorMarker: string := "... [truncated]"
  /** Every diagnostic message of a failed attempt starts with this. */
  const ErrorPrefix: string := "Execution Error: "

  function MinNat(a: nat, b: nat): nat { if a <= b then a else b }

  /** `s` when it fits in `limit` characters; otherwise its first `limit`
      characters followed by `marker`. */
  function Cap(s: string, limit: nat, marker: string): (r: string)
    ensures |s| <= limit ==> r == s
    ensures |s| > limit ==> |r| == limit + |marker| && r[limit..] == marker
    ensures |r| <= limit + |marker|
    ensures s[..MinNat(|s|, limit)] <= r
  {
    if |s| > limit then s[..limit] + marker else s
  }

  /** Capping twice is capping once: a cut text is cut back to the same prefix
      and gets the same marker again. */
  lemma CapIdempotent(s: string, limit: nat, marker: string)
    ensures Cap(Cap(s, limit, marker), limit, marker) == Cap(s, limit, marker)
  {
  }

  /** The ADL size guard: an absent ADL stays absent, a short one is unchanged,
      a long one keeps exactly its first `MaxAdlChars` characters plus the marker. */
  function CapAdl(adl: Option<string>): (r: Option<string>)
    ensures r.Some? <==> adl.Some?
    ensures adl.None? || |adl.value| <= MaxAdlChars ==> r == adl
    ensures adl.Some? && |adl.value| > MaxAdlChars ==>
              |r.value| == MaxAdlChars + |AdlMarker| &&
              r.value[..MaxAdlChars] == adl.value[..MaxAdlChars] && r.value[MaxAdlChars..] == AdlMarker
    ensures r.Some? ==> |r.value| <= MaxAdlChars + |AdlMarker|
  {
    match adl
    case None => None
    case Some(text) => Some(Cap(text, MaxAdlChars, AdlMarker))
  }

  /** A cut ADL read back is exactly 10 MiB plus the marker long. */
  lemma CapAdlLength(text: string)
    requires |text| > MaxAdlChars
    ensures |CapAdl(Some(text)).value| == MaxAdlChars + |AdlMarker|
    ensures |CapAdl(Some(text)).value| == 10 * 1024 * 1024 + 16
  {
  }

  /** The diagnostic of a failed attempt: the prefix, then the exception text,
      the whole cut at `MaxErrorChars` characters. */
  function ErrorMessage(exception: string): (r: string)
    ensures ErrorPrefix <= r
    ensures |r| <= MaxErrorChars + |ErrorMarker|
    ensures |r| <= 1015
    ensures |ErrorPrefix + exception| <= MaxErrorChars ==> r == ErrorPrefix + exception
    ensures |ErrorPrefix + exception| > MaxErrorChars ==>
              |r| == MaxErrorChars + |ErrorMarker| &&
              r[..MaxErrorChars] == (ErrorPrefix + exception)[..MaxErrorChars] && r[MaxErrorChars..] == ErrorMarker
  {
    var full := ErrorPrefix + exception;
    assert full[..|ErrorPrefix|] == ErrorPrefix;
    var r := Cap(full, MaxErrorChars, ErrorMarker);
    assert r[..MinNat(|full|, MaxErrorChars)] == full[..MinNat(|full|, MaxErrorChars)];
    assert r[..|ErrorPrefix|] == full[..MinNat(|full|, MaxErrorChars)][..|ErrorPrefix|];
    r
  }
}
