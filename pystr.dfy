/** The few Python `str` operations the reviewer service relies on, with
    Python's semantics: `sep in s`, `s.split(sep)`, `s.strip()`, `s.lower()`
    and `int(s)`, plus `str(n)` as the reference that `int` inverts. */
module PyStr {

  datatype Option<T> = None | Some(value: T)

  /** `sub` occurs in `s` starting at index `j`. */
  ghost predicate OccursAt(s: string, sub: string, j: int)
  {
    0 <= j && j + |sub| <= |s| && s[j..j + |sub|] == sub
  }

  /** An occurrence at j >= 1 in `s` is an occurrence at j - 1 in `s[1..]`. */
  lemma OccursShift(s: string, sub: string)
    requires s != []
    ensures forall j :: 1 <= j ==> (OccursAt(s, sub, j) <==> OccursAt(s[1..], sub, j - 1))
  {
    forall j | 1 <= j
      ensures OccursAt(s, sub, j) <==> OccursAt(s[1..], sub, j - 1)
    {
      if j + |sub| <= |s| {
        assert s[1..][j - 1..j - 1 + |sub|] == s[j..j + |sub|];
      }
    }
  }

  /** Index of the leftmost occurrence of `sub` in `s` (Python's `s.find(sub)`,
      with None for -1). */
  function Find(s: string, sub: string): (r: Option<nat>)
    requires sub != []
    ensures r.Some? ==> OccursAt(s, sub, r.value)
    ensures r.Some? ==> forall j :: 0 <= j < r.value ==> !OccursAt(s, sub, j)
    ensures r.None? ==> forall j :: !OccursAt(s, sub, j)
    decreases |s|
  {
    if |s| < |sub| then None
    else if s[..|sub|] == sub then Some(0)
    else
      OccursShift(s, sub);
      match Find(s[1..], sub)
      case None => None
      case Some(i) => Some(i + 1)
  }

  /** Find returns the occurrence that no earlier one precedes. */
  lemma FindLeftmost(s: string, sub: string, i: nat)
    requires sub != [] && OccursAt(s, sub, i)
    requires forall j :: 0 <= j < i ==> !OccursAt(s, sub, j)
    ensures Find(s, sub) == Some(i)
  {
    var f := Find(s, sub);
    assert f.Some?;
    assert !(f.value < i);
    assert !(i < f.value);
  }

  /** Python's `sub in s`. */
  predicate Contains(s: string, sub: string)
    requires sub != []
  {
    Find(s, sub).Some?
  }

  /** Python's `s.split(sep)` for a non-empty separator: the pieces between
      the leftmost non-overlapping occurrences of `sep`, scanning left to right. */
  function Split(s: string, sep: string): (pieces: seq<string>)
    requires sep != []
    ensures |pieces| >= 1
    decreases |s|
  {
    match Find(s, sep)
    case None => [s]
    case Some(i) => [s[..i]] + Split(s[i + |sep|..], sep)
  }

  /** Python's `sep.join(pieces)`. */
  function Join(pieces: seq<string>, sep: string): string
  {
    if pieces == [] then []
    else if |pieces| == 1 then pieces[0]
    else pieces[0] + sep + Join(pieces[1..], sep)
  }

  /** A character in neither the pieces nor the separator is not in their join. */
  lemma {:induction false} JoinWithout(pieces: seq<string>, sep: string, c: char)
    requires c !in sep
    requires forall k :: 0 <= k < |pieces| ==> c !in pieces[k]
    ensures c !in Join(pieces, sep)
  {
    if |pieces| > 1 {
      JoinWithout(pieces[1..], sep, c);
      assert c !in pieces[0];
    }
  }

  /** Splitting loses nothing: joining the pieces gives back the text. */
  lemma {:induction false} JoinSplit(s: string, sep: string)
    requires sep != []
    ensures Join(Split(s, sep), sep) == s
    decreases |s|
  {
    var f := Find(s, sep);
    if f.Some? {
      var i := f.value;
      var head, rest := s[..i], s[i + |sep|..];
      var pieces := Split(rest, sep);
      JoinSplit(rest, sep);
      assert Split(s, sep) == [head] + pieces;
      JoinCons(head, pieces, sep);
      assert OccursAt(s, sep, i);
      assert s[i..i + |sep|] == sep;
      Recompose(s, i, i + |sep|);
    }
  }

  lemma Recompose(s: string, i: nat, j: nat)
    requires i <= j <= |s|
    ensures s == s[..i] + s[i..j] + s[j..]
  {
  }

  lemma JoinCons(head: string, pieces: seq<string>, sep: string)
    requires pieces != []
    ensures Join([head] + pieces, sep) == head + sep + Join(pieces, sep)
  {
    assert ([head] + pieces)[1..] == pieces;
  }

  /** An occurrence inside a prefix is an occurrence in the whole text. */
  lemma OccursInPrefix(s: string, sub: string, n: nat, j: int)
    requires n <= |s|
    requires OccursAt(s[..n], sub, j)
    ensures OccursAt(s, sub, j) && j + |sub| <= n
  {
    assert s[..n][j..j + |sub|] == s[j..j + |sub|];
  }

  /** No piece produced by a split contains the separator. */
  lemma {:induction false} SplitPiecesFree(s: string, sep: string)
    requires sep != []
    ensures forall k :: 0 <= k < |Split(s, sep)| ==> !Contains(Split(s, sep)[k], sep)
    decreases |s|
  {
    match Find(s, sep)
    case None =>
    case Some(i) =>
      var rest := s[i + |sep|..];
      SplitPiecesFree(rest, sep);
      FirstPieceFree(s, sep, i);
      var pieces, later := Split(s, sep), Split(rest, sep);
      assert pieces == [s[..i]] + later;
      forall k | 0 <= k < |pieces|
        ensures !Contains(pieces[k], sep)
      {
        if k > 0 {
          assert pieces[k] == later[k - 1];
        }
      }
  }

  /** The text before the leftmost occurrence does not contain the separator. */
  lemma FirstPieceFree(s: string, sep: string, i: nat)
    requires sep != [] && Find(s, sep) == Some(i)
    ensures !Contains(s[..i], sep)
  {
    if Contains(s[..i], sep) {
      var j := Find(s[..i], sep).value;
      OccursInPrefix(s, sep, i, j);
      assert false;
    }
  }

  /** The first piece of a split ends at the leftmost occurrence. */
  lemma SplitAtOccurrence(s: string, sep: string, i: nat)
    requires sep != [] && OccursAt(s, sep, i)
    requires forall j :: 0 <= j < i ==> !OccursAt(s, sep, j)
    ensures Split(s, sep) == [s[..i]] + Split(s[i + |sep|..], sep)
  {
    FindLeftmost(s, sep, i);
  }

  /** With no occurrence at all, the split is `[s]`. */
  lemma SplitNoOccurrence(s: string, sep: string)
    requires sep != []
    requires forall j :: 0 <= j < |s| ==> !OccursAt(s, sep, j)
    ensures Split(s, sep) == [s]
  {
  }

  /** A one-character text occurs exactly where that character stands. */
  lemma OccursChar(s: string, c: char, j: int)
    ensures OccursAt(s, [c], j) <==> 0 <= j < |s| && s[j] == c
  {
    if 0 <= j < |s| {
      assert s[j..j + 1][0] == s[j];
      if s[j] == c {
        assert s[j..j + 1] == [c];
      }
    }
  }

  /** With a one-character separator, the first piece ends at the first
      occurrence of that character. */
  lemma SplitAtFirst(s: string, c: char, i: nat)
    requires i < |s| && s[i] == c
    requires forall k :: 0 <= k < i ==> s[k] != c
    ensures Split(s, [c]) == [s[..i]] + Split(s[i + 1..], [c])
  {
    OccursChar(s, c, i);
    forall j | 0 <= j < i
      ensures !OccursAt(s, [c], j)
    {
      OccursChar(s, c, j);
    }
    SplitAtOccurrence(s, [c], i);
  }

  /** With a one-character separator absent from `s`, the split is `[s]`. */
  lemma SplitAbsent(s: string, c: char)
    requires forall k :: 0 <= k < |s| ==> s[k] != c
    ensures Split(s, [c]) == [s]
  {
    forall j
      ensures !OccursAt(s, [c], j)
    {
      OccursChar(s, c, j);
    }
  }

  /** A first piece free of the one-character separator splits off whole. */
  lemma SplitCons(first: string, tail: string, c: char)
    requires c !in first
    ensures Split(first + [c] + tail, [c]) == [first] + Split(tail, [c])
  {
    var s := first + [c] + tail;
    forall k | 0 <= k < |first|
      ensures s[k] != c
    {
      assert s[k] == first[k];
    }
    assert s[|first|] == c;
    SplitAtFirst(s, c, |first|);
    assert s[..|first|] == first;
    assert s[|first| + 1..] == tail;
  }

  /** With a one-character separator, the first piece runs up to the first
      occurrence of that character, or to the end of the text. */
  lemma FirstPiece(s: string, c: char, j: nat)
    requires j <= |s| && (j == |s| || s[j] == c)
    requires forall k :: 0 <= k < j ==> s[k] != c
    ensures Split(s, [c])[0] == s[..j]
  {
    if j == |s| {
      SplitAbsent(s, c);
      assert s[..j] == s;
    } else {
      SplitAtFirst(s, c, j);
    }
  }

  /** For a one-character separator that no piece contains, splitting the
      joined text gives the pieces back. */
  lemma {:induction false} SplitJoin(pieces: seq<string>, c: char)
    requires pieces != []
    requires forall k :: 0 <= k < |pieces| ==> c !in pieces[k]
    ensures Split(Join(pieces, [c]), [c]) == pieces
    decreases |pieces|
  {
    if |pieces| == 1 {
      SplitAbsent(pieces[0], c);
    } else {
      var first, rest := pieces[0], pieces[1..];
      SplitJoin(rest, c);
      assert Join(pieces, [c]) == first + [c] + Join(rest, [c]);
      SplitCons(first, Join(rest, [c]), c);
      assert [first] + rest == pieces;
    }
  }

  /** Python's `str.isspace()` for one character: the characters `strip()`
      removes when called without arguments. */
  predicate IsSpace(c: char)
  {
    || c == ' '
    || ('\t' <= c <= '\r')
    || ('\U{1C}' <= c <= '\U{1F}')
    || c == '\U{85}' || c == '\U{A0}' || c == '\U{1680}'
    || ('\U{2000}' <= c <= '\U{200A}')
    || c == '\U{2028}' || c == '\U{2029}' || c == '\U{202F}'
    || c == '\U{205F}' || c == '\U{3000}'
  }

  predicate AllSpace(s: string)
  {
    forall k :: 0 <= k < |s| ==> IsSpace(s[k])
  }

  /** Python's `s.lstrip()`: drop the leading whitespace. */
  function TrimStart(s: string): (r: string)
    ensures |r| <= |s| && r == s[|s| - |r|..]
    ensures AllSpace(s[..|s| - |r|])
    ensures r != [] ==> !IsSpace(r[0])
    decreases |s|
  {
    if s != [] && IsSpace(s[0]) then
      var r := TrimStart(s[1..]);
      assert s[..|s| - |r|] == [s[0]] + s[1..][..|s[1..]| - |r|];
      r
    else s
  }

  /** Python's `s.rstrip()`: drop the trailing whitespace. */
  function TrimEnd(s: string): (r: string)
    ensures |r| <= |s| && r == s[..|r|]
    ensures AllSpace(s[|r|..])
    ensures r != [] ==> !IsSpace(r[|r| - 1])
    decreases |s|
  {
    if s != [] && IsSpace(s[|s| - 1]) then
      var r := TrimEnd(s[..|s| - 1]);
      assert s[|r|..] == s[..|s| - 1][|r|..] + [s[|s| - 1]];
      r
    else s
  }

  /** Python's `s.strip()`. */
  function Strip(s: string): (r: string)
    ensures r != [] ==> !IsSpace(r[0]) && !IsSpace(r[|r| - 1])
  {
    TrimEnd(TrimStart(s))
  }

  lemma {:induction false} TrimStartPadded(pad: string, t: string)
    requires AllSpace(pad)
    requires t == [] || !IsSpace(t[0])
    ensures TrimStart(pad + t) == t
    decreases |pad|
  {
    if pad != [] {
      assert (pad + t)[1..] == pad[1..] + t;
      TrimStartPadded(pad[1..], t);
    }
  }

  lemma {:induction false} TrimEndPadded(t: string, pad: string)
    requires AllSpace(pad)
    requires t == [] || !IsSpace(t[|t| - 1])
    ensures TrimEnd(t + pad) == t
    decreases |pad|
  {
    if pad != [] {
      assert (t + pad)[..|t + pad| - 1] == t + pad[..|pad| - 1];
      TrimEndPadded(t, pad[..|pad| - 1]);
    }
  }

  /** `strip()` is determined by its two promises: whatever surrounds a core
      that neither starts nor ends with whitespace, if it is all whitespace,
      is exactly what `strip()` removes. */
  lemma StripPadded(before: string, core: string, after: string)
    requires AllSpace(before) && AllSpace(after)
    requires core != [] ==> !IsSpace(core[0]) && !IsSpace(core[|core| - 1])
    ensures Strip(before + core + after) == core
  {
    if core == [] {
      assert before + core + after == (before + after) + [];
      TrimStartPadded(before + after, []);
    } else {
      assert before + core + after == before + (core + after);
      TrimStartPadded(before, core + after);
      TrimEndPadded(core, after);
    }
  }

  predicate IsDigit(c: char)
  {
    '0' <= c <= '9'
  }

  predicate AllDigits(s: string)
  {
    forall k :: 0 <= k < |s| ==> IsDigit(s[k])
  }

  /** The value of a string of ASCII decimal digits, read left to right. */
  function DigitsValue(ds: string): nat
    requires AllDigits(ds)
  {
    if ds == [] then 0
    else DigitsValue(ds[..|ds| - 1]) * 10 + (ds[|ds| - 1] as int - '0' as int)
  }

  /** Python's `int(s)` on text that is already stripped: an optional sign
      followed by one or more ASCII digits; anything else is rejected (where
      Python raises ValueError). */
  function ParseInt(s: string): (r: Option<int>)
    ensures r.Some? ==> s != [] && AllDigits(s[1..])
    ensures r.Some? && !IsDigit(s[0]) ==> |s| >= 2 && (s[0] == '+' || s[0] == '-')
  {
    if s != [] && (s[0] == '+' || s[0] == '-') then
      var ds := s[1..];
      if ds != [] && AllDigits(ds) then
        var v: int := DigitsValue(ds);
        Some(if s[0] == '-' then -v else v)
      else None
    else if s != [] && AllDigits(s) then Some(DigitsValue(s))
    else None
  }

  /** Python's `str(n)` for a natural number: its decimal digits. */
  function DecimalDigits(n: nat): (ds: string)
    ensures ds != [] && AllDigits(ds) && DigitsValue(ds) == n
  {
    var d := ('0' as int + n % 10) as char;
    if n < 10 then [d]
    else
      var prefix := DecimalDigits(n / 10);
      assert (prefix + [d])[..|prefix|] == prefix;
      prefix + [d]
  }

  /** Python's `str(n)` for an integer. */
  function Show(n: int): string
  {
    if n < 0 then "-" + DecimalDigits(-n) else DecimalDigits(n)
  }

  /** `int(str(n)) == n`: every integer, negative ones included, is read
      back from its decimal form. */
  lemma ParseShow(n: int)
    ensures ParseInt(Show(n)) == Some(n)
  {
    if n < 0 {
      assert Show(n)[1..] == DecimalDigits(-n);
    } else {
      assert IsDigit(Show(n)[0]);
    }
  }

  /** Python's `c.lower()` restricted to ASCII letters. */
  function LowerChar(c: char): char
  {
    if 'A' <= c <= 'Z' then (c as int - 'A' as int + 'a' as int) as char else c
  }

  /** Python's `s.lower()` restricted to ASCII letters. */
  function Lower(s: string): string
  {
    seq(|s|, k requires 0 <= k < |s| => LowerChar(s[k]))
  }
}
