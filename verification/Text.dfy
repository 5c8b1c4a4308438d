/** The string functions of the standard library that several components rely on. */
module Text {
  predicate IsSpace(c: char) {
    || c in "\t\n\r \U{000B}\U{000C}\U{0085}\U{00A0}\U{1680}\U{2028}\U{2029}\U{202F}\U{205F}\U{3000}"
    || '\U{2000}' <= c <= '\U{200A}'
  }

  /** Leading and trailing white space removed. */
  function TrimSpace(s: string): string {
    if s != [] && IsSpace(s[0]) then TrimSpace(s[1..])
    else if s != [] && IsSpace(s[|s| - 1]) then TrimSpace(s[..|s| - 1])
    else s
  }

  predicate Blank(s: string) {
    TrimSpace(s) == ""
  }

  /** One trailing c removed, if there is one. */
  function TrimSuffix(s: string, c: char): string {
    if s != [] && s[|s| - 1] == c then s[..|s| - 1] else s
  }

  lemma {:induction false} TrimSpaceIsTrimmed(s: string)
    ensures TrimSpace(TrimSpace(s)) == TrimSpace(s)
  {
    if s != [] && IsSpace(s[0]) {
      TrimSpaceIsTrimmed(s[1..]);
    } else if s != [] && IsSpace(s[|s| - 1]) {
      TrimSpaceIsTrimmed(s[..|s| - 1]);
    }
  }

  lemma {:induction false} TrimSpaceShrinks(s: string)
    ensures |TrimSpace(s)| <= |s|
  {
    if s != [] && IsSpace(s[0]) {
      TrimSpaceShrinks(s[1..]);
    } else if s != [] && IsSpace(s[|s| - 1]) {
      TrimSpaceShrinks(s[..|s| - 1]);
    }
  }

  /** Only what has no space at an end is left alone. */
  lemma TrimSpaceKeeps(s: string)
    ensures TrimSpace(s) == s <==> s == "" || (!IsSpace(s[0]) && !IsSpace(s[|s| - 1]))
  {
    hide IsSpace;
    if s != "" {
      TrimSpaceShrinks(s[1..]);
      TrimSpaceShrinks(s[..|s| - 1]);
    }
  }
}
