/** The string primitives the name splitter takes from Python's `str`:
    lower-casing, first-occurrence substring search, joining with a separator
    and splitting on a separator character. */
module Text {

  /** Characters `str.lower` maps to the code point 32 above them: the ASCII
      capitals and the Latin-1 capitals from À to Þ, except the multiplication
      sign ×. */
  predicate IsUpper(c: char) {
    ('A' <= c <= 'Z') || ('\U{C0}' <= c <= '\U{DE}' && c != '\U{D7}')
  }

  /** The lower-case form of one character; every character that is not
      `IsUpper` is its own lower-case form. */
  function LowerChar(c: char): (d: char)
    ensures IsUpper(c) ==> d as int == c as int + 32
    ensures !IsUpper(c) ==> d == c
    ensures !IsUpper(d)
  {
    if IsUpper(c) then (c as int + 32) as char else c
  }

  /** `s.lower()`, as a length-preserving character-by-character map. */
  function Lower(s: string): (r: string)
    ensures |r| == |s|
    ensures forall i :: 0 <= i < |s| ==> r[i] == LowerChar(s[i])
  {
    seq(|s|, i requires 0 <= i < |s| => LowerChar(s[i]))
  }

  /** Lower-casing commutes with slicing, so searching the lower-cased text is
      the same as comparing slices of the original text up to case. */
  lemma LowerSlice(s: string, lo: int, hi: int)
    requires 0 <= lo <= hi <= |s|
    ensures Lower(s)[lo..hi] == Lower(s[lo..hi])
  {
  }

  /** `needle` occurs in `hay` starting at index `i`. */
  predicate MatchesAt(hay: string, needle: string, i: int) {
    0 <= i && i + |needle| <= |hay| && hay[i..i + |needle|] == needle
  }

  /** The search behind `hay.find(needle, k)`: the first index at or after
      `k` where `needle` occurs, or -1 when there is none. */
  function FindFrom(hay: string, needle: string, k: nat): (r: int)
    ensures r == -1 || (k <= r && MatchesAt(hay, needle, r))
    ensures r == -1 ==> forall j :: k <= j ==> !MatchesAt(hay, needle, j)
    ensures r != -1 ==> forall j :: k <= j < r ==> !MatchesAt(hay, needle, j)
    decreases |hay| - k
  {
    if k + |needle| > |hay| then -1
    else if hay[k..k + |needle|] == needle then k
    else FindFrom(hay, needle, k + 1)
  }

  /** `hay.find(needle)`: the index of the first occurrence of `needle` in
      `hay`, or -1 when `needle` does not occur (an empty `needle` occurs at 0). */
  function Find(hay: string, needle: string): (r: int)
    ensures -1 <= r
    ensures r >= 0 ==> MatchesAt(hay, needle, r)
    ensures r >= 0 ==> forall j :: 0 <= j < r ==> !MatchesAt(hay, needle, j)
    ensures r == -1 <==> forall j :: !MatchesAt(hay, needle, j)
  {
    FindFrom(hay, needle, 0)
  }

  /** `sep.join(parts)`: the parts in order, with `sep` between neighbours.
      No parts give the empty string, one part gives that part, and otherwise
      the result starts with the first part. */
  function Join(sep: string, parts: seq<string>): (r: string)
    ensures parts == [] ==> r == ""
    ensures |parts| >= 1 ==> parts[0] <= r
    ensures |parts| == 1 ==> r == parts[0]
    decreases |parts|
  {
    if |parts| == 0 then ""
    else if |parts| == 1 then parts[0]
    else parts[0] + sep + Join(sep, parts[1..])
  }

  /** The summed length of a sequence of strings. */
  function TotalLength(parts: seq<string>): (n: nat)
    ensures parts != [] ==> |parts[0]| <= n
    decreases |parts|
  {
    if |parts| == 0 then 0 else |parts[0]| + TotalLength(parts[1..])
  }

  /** Joining loses no characters and adds exactly one separator between
      each pair of neighbours. */
  lemma {:induction false} JoinLength(sep: string, parts: seq<string>)
    requires |parts| >= 1
    ensures |Join(sep, parts)| == TotalLength(parts) + (|parts| - 1) * |sep|
    decreases |parts|
  {
    if |parts| > 1 {
      var rest := parts[1..];
      JoinLength(sep, rest);
      assert Join(sep, parts) == parts[0] + sep + Join(sep, rest);
      assert TotalLength(parts) == |parts[0]| + TotalLength(rest);
      MulStep(|rest| - 1, |sep|);
    }
  }

  /** One more separator adds one separator's length. */
  lemma MulStep(k: int, n: int)
    ensures (k + 1) * n == k * n + n
  {
  }

  /** `s.split(sep)` for a one-character separator: the maximal pieces of `s`
      between occurrences of `sep`, so always at least one piece. */
  function Split(sep: char, s: string): (r: seq<string>)
    ensures |r| >= 1
    decreases |s|
  {
    if |s| == 0 then [""]
    else
      var rest := Split(sep, s[1..]);
      if s[0] == sep then [""] + rest
      else [[s[0]] + rest[0]] + rest[1..]
  }

  /** A piece free of the separator, followed by the separator, splits off as
      its own piece. */
  lemma {:induction false} SplitPiece(sep: char, p: string, t: string)
    requires sep !in p
    ensures Split(sep, p + [sep] + t) == [p] + Split(sep, t)
    decreases |p|
  {
    if |p| == 0 {
      assert p + [sep] + t == [sep] + t;
      assert ([sep] + t)[1..] == t;
    } else {
      assert (p + [sep] + t)[1..] == p[1..] + [sep] + t;
      SplitPiece(sep, p[1..], t);
      assert [p[0]] + p[1..] == p;
    }
  }

  /** A string free of the separator splits into itself alone. */
  lemma {:induction false} SplitWhole(sep: char, p: string)
    requires sep !in p
    ensures Split(sep, p) == [p]
    decreases |p|
  {
    if |p| > 0 {
      SplitWhole(sep, p[1..]);
      assert [p[0]] + p[1..] == p;
    }
  }

  /** Splitting on the separator undoes joining with it, as long as there is
      at least one part and no part contains the separator. */
  lemma {:induction false} SplitJoin(sep: char, parts: seq<string>)
    requires |parts| >= 1
    requires forall k :: 0 <= k < |parts| ==> sep !in parts[k]
    ensures Split(sep, Join([sep], parts)) == parts
    decreases |parts|
  {
    if |parts| == 1 {
      SplitWhole(sep, parts[0]);
    } else {
      SplitJoin(sep, parts[1..]);
      SplitPiece(sep, parts[0], Join([sep], parts[1..]));
      assert [parts[0]] + parts[1..] == parts;
    }
  }
}
