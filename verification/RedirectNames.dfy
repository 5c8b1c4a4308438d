/** The names an authenticated redirect may lead to, told from their characters. */
module RedirectNames {
  import opened ReconnectLoop
  import opened Text

  /** Letters, digits and the hyphen, by their ASCII codes. */
  predicate LetterDigitHyphen(c: char) {
    var code := c as int;
    48 <= code <= 57 || 65 <= code <= 90 || 97 <= code <= 122 || code == 45
  }

  predicate Inner(c: char) { c != '.' && c != '-' }

  /** A dot has a neighbour on either side, and neither is a dot or a hyphen. */
  predicate Separates(name: string, i: nat)
    requires i < |name|
  {
    0 < i < |name| - 1 && Inner(name[i - 1]) && Inner(name[i + 1])
  }

  predicate DotWithin(name: string, i: nat)
    requires i + 64 <= |name|
  {
    exists k :: i <= k < i + 64 && name[k] == '.'
  }

  /** A host name, told from its characters alone: letters, digits, hyphens and dots, no hyphen at an
      end of the name or beside a dot, no dot at an end or beside another, and a dot among any 64
      characters in a row. */
  predicate HostName(name: string) {
    && name != "" && name[0] != '-' && name[|name| - 1] != '-'
    && (forall i :: 0 <= i < |name| ==> LetterDigitHyphen(name[i]) || (name[i] == '.' && Separates(name, i)))
    && (forall i :: 0 <= i <= |name| - 64 ==> DotWithin(name, i))
  }

  lemma {:induction false} LabelsOfOne(name: string)
    requires '.' !in name
    ensures Labels(name) == [name]
  {
    if name != "" { LabelsOfOne(name[1..]); assert name == [name[0]] + name[1..]; }
  }

  lemma {:induction false} LabelsSplit(first: string, rest: string)
    requires '.' !in first
    ensures Labels(first + "." + rest) == [first] + Labels(rest)
    decreases |first|
  {
    var name := first + "." + rest;
    if first == "" {
      assert name[1..] == rest;
    } else {
      LabelsSplit(first[1..], rest);
      assert name[1..] == first[1..] + "." + rest;
      assert first == [first[0]] + first[1..];
    }
  }

  lemma OneLabel(name: string)
    requires '.' !in name
    ensures ValidLabel(name) <==> HostName(name)
  {
    forall i | 0 <= i < |name| ensures name[i] != '.' { assert name[i] in name; }
    if |name| >= 64 { assert !DotWithin(name, 0); }
    if HostName(name) { forall i | 0 <= i < |name| ensures LabelCharacter(name[i]) { } }
    if ValidLabel(name) { forall i | 0 <= i < |name| ensures LetterDigitHyphen(name[i]) { assert LabelCharacter(name[i]); } }
  }

  lemma FirstLabelOf(first: string, rest: string)
    requires '.' !in first && HostName(first + "." + rest)
    ensures HostName(first) && HostName(rest)
  {
    var name, n := first + "." + rest, |first|;
    assert name[n] == '.';
    assert forall i :: 0 <= i < n ==> name[i] == first[i] && name[i] != '.' by {
      forall i | 0 <= i < n ensures name[i] == first[i] && name[i] != '.' { assert first[i] in first; }
    }
    assert forall i :: 0 <= i < |rest| ==> name[n + 1 + i] == rest[i];
    assert Separates(name, n);
    assert n >= 64 ==> !DotWithin(name, 0);
    forall i | 0 <= i < |rest|
      ensures LetterDigitHyphen(rest[i]) || (rest[i] == '.' && Separates(rest, i))
    {
      assert name[n + 1 + i] == rest[i];
      if rest[i] == '.' { assert Separates(name, n + 1 + i); }
    }
    forall i | 0 <= i <= |rest| - 64 ensures DotWithin(rest, i) {
      assert DotWithin(name, n + 1 + i);
      var k :| n + 1 + i <= k < n + 65 + i && name[k] == '.';
      assert rest[k - n - 1] == '.';
    }
  }

  lemma JoinedName(first: string, rest: string)
    requires '.' !in first && HostName(first) && HostName(rest)
    ensures HostName(first + "." + rest)
  {
    var name, n := first + "." + rest, |first|;
    assert name[n] == '.' && name[..n] == first && name[n + 1..] == rest;
    forall i | 0 <= i < |name|
      ensures LetterDigitHyphen(name[i]) || (name[i] == '.' && Separates(name, i))
    {
      if i < n {
        assert name[i] == first[i];
      } else if i > n {
        assert name[i] == rest[i - n - 1];
        if name[i] == '.' { assert Separates(rest, i - n - 1); }
      }
    }
    forall i | 0 <= i <= |name| - 64 ensures DotWithin(name, i) {
      if i > n {
        assert DotWithin(rest, i - n - 1);
        var k :| i - n - 1 <= k < i - n + 63 && rest[k] == '.';
        assert name[k + n + 1] == '.';
      } else {
        assert n >= 64 ==> !DotWithin(first, 0);
      }
    }
  }

  lemma FirstDot(name: string) returns (n: nat)
    requires '.' in name
    ensures n < |name| && name[n] == '.' && '.' !in name[..n]
    decreases |name|
  {
    if name[0] == '.' {
      return 0;
    }
    assert name == [name[0]] + name[1..];
    var m := FirstDot(name[1..]);
    assert name[..m + 1] == [name[0]] + name[1..][..m];
    return m + 1;
  }

  lemma {:induction false} LabelsAreHostName(name: string)
    ensures (forall part :: part in Labels(name) ==> ValidLabel(part)) <==> HostName(name)
    decreases |name|
  {
    hide HostName, ValidLabel;
    if '.' !in name {
      LabelsOfOne(name);
      OneLabel(name);
    } else {
      var n := FirstDot(name);
      var first, rest := name[..n], name[n + 1..];
      assert name == first + "." + rest;
      LabelsSplit(first, rest);
      LabelsAreHostName(rest);
      OneLabel(first);
      if HostName(name) { FirstLabelOf(first, rest); }
      if HostName(first) && HostName(rest) { JoinedName(first, rest); }
      assert first in Labels(name) && forall part :: part in Labels(name) <==> part == first || part in Labels(rest);
    }
  }

  /** A redirect names a numeric address, or a host name of at most 253 characters before an optional
      final dot. */
  lemma RedirectNamesHost(names: Names, address: string)
    ensures ValidRedirectAddress(names, address)
       <==> names.numeric(address) || (|TrimSuffix(address, '.')| <= 253 && HostName(TrimSuffix(address, '.')))
  {
    LabelsAreHostName(TrimSuffix(address, '.'));
  }
}
