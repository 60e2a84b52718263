/** `sanitize` (index.ts), applied to display names: the `decancer` library
    first folds look-alike characters (a parameter here), then every
    character that is white space or one of `<`, `|`, `\`, `/`, `>` is
    removed (`/[\s<|\\\/>]+/g` replaced by nothing). */
module Sanitize {
  import opened JsText

  predicate Disallowed(c: char) {
    IsWhitespace(c) || c == '<' || c == '|' || c == '\\' || c == '/' || c == '>'
  }

  /** The regular-expression replacement: each disallowed character is
      dropped, every other character is kept as often as it occurs. */
  function RemoveDisallowed(s: string): (r: string)
    ensures forall i :: 0 <= i < |r| ==> !Disallowed(r[i])
    ensures |r| <= |s|
  {
    if |s| == 0 then ""
    else (if Disallowed(s[0]) then "" else [s[0]]) + RemoveDisallowed(s[1..])
  }

  /** Every allowed character survives as often as it occurs. */
  lemma {:induction false} RemoveDisallowedKeepsAllowed(s: string)
    ensures forall c :: !Disallowed(c) ==> multiset(RemoveDisallowed(s))[c] == multiset(s)[c]
  {
    if |s| > 0 {
      RemoveDisallowedKeepsAllowed(s[1..]);
      assert s == [s[0]] + s[1..];
    }
  }

  /** `sanitize(input)`. */
  function Sanitize(decancer: string -> string, input: string): (r: string)
    ensures forall i :: 0 <= i < |r| ==> !Disallowed(r[i])
    ensures forall c :: !Disallowed(c) ==> multiset(r)[c] == multiset(decancer(input))[c]
  {
    RemoveDisallowedKeepsAllowed(decancer(input));
    RemoveDisallowed(decancer(input))
  }

  /** Removal works piece by piece, so it keeps the order of what it keeps. */
  lemma {:induction false} RemoveDisallowedConcat(a: string, b: string)
    ensures RemoveDisallowed(a + b) == RemoveDisallowed(a) + RemoveDisallowed(b)
  {
    if |a| == 0 {
      assert a + b == b;
    } else {
      assert (a + b)[0] == a[0];
      assert (a + b)[1..] == a[1..] + b;
      RemoveDisallowedConcat(a[1..], b);
    }
  }

  /** Text with nothing to remove is unchanged, and removing twice removes
      nothing more. */
  lemma {:induction false} RemoveDisallowedKeepsClean(s: string)
    requires forall i :: 0 <= i < |s| ==> !Disallowed(s[i])
    ensures RemoveDisallowed(s) == s
  {
    if |s| > 0 {
      RemoveDisallowedKeepsClean(s[1..]);
    }
  }

  lemma RemoveDisallowedIdempotent(s: string)
    ensures RemoveDisallowed(RemoveDisallowed(s)) == RemoveDisallowed(s)
  {
    RemoveDisallowedKeepsClean(RemoveDisallowed(s));
  }
}
