/** The announcement parser of the mention handler (index.ts): each recent
    message of the announcement channel is cut where the first run of ten or
    more `=` begins (`/={10,}/m`), and what is left is trimmed at the end. A
    message without such a run is kept as it is, untrimmed. */
module Announcements {
  import opened Results
  import opened JsText

  /** The shortest run of `=` that counts as a separator. */
  const RunLength := 10

  /** A run of at least ten `=` starts at `p`. */
  predicate RunAt(s: string, p: nat) {
    p + RunLength <= |s| && forall j :: p <= j < p + RunLength ==> s[j] == '='
  }

  /** `p` is where the regular expression matches: the leftmost run. */
  ghost predicate IsFirstRun(s: string, p: nat) {
    RunAt(s, p) && forall q :: 0 <= q < p ==> !RunAt(s, q)
  }

  /** The regular expression's search from `from` on. */
  function FirstRunFrom(s: string, from: nat): (r: Option<nat>)
    ensures r.Some? ==> from <= r.value && RunAt(s, r.value)
                        && forall q :: from <= q < r.value ==> !RunAt(s, q)
    ensures r.None? ==> forall q :: from <= q ==> !RunAt(s, q)
    decreases |s| - from
  {
    if from + RunLength > |s| then None
    else if RunAt(s, from) then Some(from)
    else FirstRunFrom(s, from + 1)
  }

  /** `match ? content.slice(0, match.index).trimEnd() : content`. */
  function Truncate(s: string): (r: string)
    ensures (forall p: nat :: !RunAt(s, p)) ==> r == s
    ensures forall p: nat :: IsFirstRun(s, p) ==> r == TrimEnd(s[..p])
  {
    match FirstRunFrom(s, 0)
    case None => s
    case Some(p) => TrimEnd(s[..p])
  }

  /** What survives is a prefix of the message holding no separator run, and
      when a run was cut it does not end in white space. */
  lemma TruncateLeavesNoRun(s: string)
    ensures Truncate(s) <= s
    ensures forall q: nat :: !RunAt(Truncate(s), q)
    ensures (exists p: nat :: RunAt(s, p)) ==>
              |Truncate(s)| == 0 || !IsWhitespace(Truncate(s)[|Truncate(s)| - 1])
  {
    var r := Truncate(s);
    match FirstRunFrom(s, 0)
    case None =>
    case Some(p) =>
      forall q: nat
        ensures !RunAt(r, q)
      {
        if q + RunLength <= |r| {
          assert !RunAt(s, q);
          var j :| q <= j < q + RunLength && s[j] != '=';
          assert r[j] == s[j];
        }
      }
  }

  /** Cutting is stable: a cut message has nothing left to cut. */
  lemma TruncateIdempotent(s: string)
    ensures Truncate(Truncate(s)) == Truncate(s)
  {
    TruncateLeavesNoRun(s);
  }
}
