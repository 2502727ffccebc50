/** JavaScript strings and the few `String.prototype` operations the wallet
    code relies on: `trim`, `split` on a one-character separator, and
    prefix tests. A JavaScript string is a sequence of UTF-16 code units, so
    that `length`, `charCodeAt` and the regular-expression `.` behave as in
    the original program (an astral character counts as two units). */
module JsText {

  /** A JavaScript array holds at most 2^32 - 1 elements. */
  const MAX_ARRAY_LENGTH: nat := 0xFFFF_FFFF

  /** One UTF-16 code unit, the value `charCodeAt` returns. */
  type CodeUnit = c: int | 0 <= c < 0x1_0000

  type JsString = seq<CodeUnit>

  const DASH: CodeUnit := 0x2D   // '-'
  const SLASH: CodeUnit := 0x2F  // '/'
  const COLON: CodeUnit := 0x3A  // ':'
  const PLUS: CodeUnit := 0x2B   // '+'
  const EQUALS: CodeUnit := 0x3D // '='
  const ZERO: CodeUnit := 0x30   // '0'
  const NINE: CodeUnit := 0x39   // '9'
  const SPACE: CodeUnit := 0x20  // ' '

  /** LineTerminator of ECMA-262 section 12.3: LF, CR, LS and PS. These are
      also the code units the regular-expression `.` does not match. */
  predicate IsLineTerminator(c: CodeUnit) {
    c == 0x0A || c == 0x0D || c == 0x2028 || c == 0x2029
  }

  /** WhiteSpace (ECMA-262 section 12.2, including every Unicode "Zs" space)
      or LineTerminator: exactly the code units `trim` removes and
      `parseInt` skips. */
  predicate IsWhiteSpace(c: CodeUnit) {
    || c == 0x09 || c == 0x0B || c == 0x0C || c == 0x20 || c == 0xA0
    || c == 0x1680 || (0x2000 <= c <= 0x200A) || c == 0x202F || c == 0x205F
    || c == 0x3000 || c == 0xFEFF
    || IsLineTerminator(c)
  }

  predicate AllWhiteSpace(s: JsString) {
    forall k :: 0 <= k < |s| ==> IsWhiteSpace(s[k])
  }

  /** `String.prototype.trimStart`: the longest suffix that does not start
      with white space. */
  function TrimStart(s: JsString): (r: JsString)
    ensures |r| <= |s| && r == s[|s| - |r|..]
    ensures AllWhiteSpace(s[..|s| - |r|])
    ensures |r| > 0 ==> !IsWhiteSpace(r[0])
    decreases |s|
  {
    if |s| > 0 && IsWhiteSpace(s[0]) then
      var r := TrimStart(s[1..]);
      assert s[1..][..|s| - 1 - |r|] == s[1..|s| - |r|];
      r
    else s
  }

  /** Leading white space is what `trimStart` drops. */
  lemma {:induction false} TrimStartAfterWhiteSpace(w: JsString, s: JsString)
    requires AllWhiteSpace(w)
    ensures TrimStart(w + s) == TrimStart(s)
    decreases |w|
  {
    if w != [] {
      assert (w + s)[0] == w[0];
      assert (w + s)[1..] == w[1..] + s;
      TrimStartAfterWhiteSpace(w[1..], s);
    } else {
      assert w + s == s;
    }
  }

  /** `trimStart` leaves a string alone when it does not start with white
      space. */
  lemma {:induction false} TrimStartUnchanged(s: JsString)
    requires |s| > 0 ==> !IsWhiteSpace(s[0])
    ensures TrimStart(s) == s
  {
  }

  /** `String.prototype.trimEnd`: the longest prefix that does not end with
      white space. */
  function TrimEnd(s: JsString): (r: JsString)
    ensures |r| <= |s| && r == s[..|r|]
    ensures AllWhiteSpace(s[|r|..])
    ensures |r| > 0 ==> !IsWhiteSpace(r[|r| - 1])
    decreases |s|
  {
    if |s| > 0 && IsWhiteSpace(s[|s| - 1]) then
      var r := TrimEnd(s[..|s| - 1]);
      assert s[..|s| - 1][|r|..] + [s[|s| - 1]] == s[|r|..];
      r
    else s
  }

  /** `String.prototype.trim`: the input without its leading and trailing
      white space. The result neither starts nor ends with white space;
      TrimCutsOnlyWhiteSpace says where it sits in the input. */
  function Trim(s: JsString): (r: JsString)
    ensures |r| <= |s|
    ensures |r| > 0 ==> !IsWhiteSpace(r[0]) && !IsWhiteSpace(r[|r| - 1])
  {
    var t := TrimStart(s);
    var r := TrimEnd(t);
    assert |r| > 0 ==> r[0] == t[0];
    r
  }

  /** What `trim` cuts off on either side is white space, and the result is
      the contiguous rest of the input. */
  lemma {:induction false} TrimCutsOnlyWhiteSpace(s: JsString)
    ensures exists i :: TrimmedAt(s, i, Trim(s))
  {
    var t := TrimStart(s);
    var r := TrimEnd(t);
    var i := |s| - |t|;
    assert r == Trim(s);
    assert t == s[i..];
    assert r == t[..|r|] && t[..|r|] == s[i..i + |r|];
    assert AllWhiteSpace(s[..i]);
    assert t[|r|..] == s[i + |r|..];
    assert AllWhiteSpace(s[i + |r|..]);
    assert TrimmedAt(s, i, r);
  }

  /** `r` sits at position `i` of `s` with only white space around it. */
  predicate TrimmedAt(s: JsString, i: int, r: JsString) {
    && 0 <= i && i + |r| <= |s|
    && r == s[i..i + |r|]
    && AllWhiteSpace(s[..i])
    && AllWhiteSpace(s[i + |r|..])
  }

  /** The truthiness test `s.trim() !== ""` used to drop blank entries. */
  predicate IsBlank(s: JsString) {
    Trim(s) == []
  }

  /** A string is blank exactly when every code unit in it is white space. */
  lemma {:induction false} BlankIffAllWhiteSpace(s: JsString)
    ensures IsBlank(s) <==> AllWhiteSpace(s)
  {
    var t := TrimStart(s);
    var r := TrimEnd(t);
    assert r == Trim(s);
    if r != [] {
      assert r[|r| - 1] == t[|r| - 1] && r[|r| - 1] == s[|s| - |t| + |r| - 1];
    } else if t == [] {
      assert s[..|s|] == s;
    }
  }

  /** Trimming leaves a string alone when it neither starts nor ends with
      white space. */
  lemma {:induction false} TrimUnchanged(s: JsString)
    requires |s| > 0 ==> !IsWhiteSpace(s[0]) && !IsWhiteSpace(s[|s| - 1])
    ensures Trim(s) == s
  {
  }

  /** Trimming twice is the same as trimming once. */
  lemma {:induction false} TrimIdempotent(s: JsString)
    ensures Trim(Trim(s)) == Trim(s)
  {
    TrimUnchanged(Trim(s));
  }

  function StartsWith(s: JsString, prefix: JsString): bool {
    |prefix| <= |s| && s[..|prefix|] == prefix
  }

  /** The number of occurrences of `c` in `s`. */
  function Count(s: JsString, c: CodeUnit): (n: nat)
    ensures n == 0 <==> c !in s
    ensures n <= |s|
  {
    if s == [] then 0 else (if s[0] == c then 1 else 0) + Count(s[1..], c)
  }

  lemma {:induction false} CountAppend(a: JsString, b: JsString, c: CodeUnit)
    ensures Count(a + b, c) == Count(a, c) + Count(b, c)
    decreases |a|
  {
    if a == [] {
      assert a + b == b;
    } else {
      assert (a + b)[1..] == a[1..] + b;
      CountAppend(a[1..], b, c);
    }
  }

  /** The occurrences of `c` in `s` are the first one, at `i`, and those
      after it. */
  lemma {:induction false} CountPastFirst(s: JsString, c: CodeUnit, i: nat)
    requires i < |s| && s[i] == c && c !in s[..i]
    ensures Count(s, c) == Count(s[i + 1..], c) + 1
    decreases i
  {
    if i > 0 {
      assert s[0] != c by { assert s[0] == s[..i][0]; }
      assert s[1..][..i - 1] == s[1..i];
      CountPastFirst(s[1..], c, i - 1);
      assert s[1..][i..] == s[i + 1..];
    }
  }

  /** The position of the first occurrence of `c`. */
  function IndexOf(s: JsString, c: CodeUnit): (i: nat)
    requires c in s
    ensures i < |s| && s[i] == c && c !in s[..i]
  {
    if s[0] == c then 0
    else
      var i := IndexOf(s[1..], c);
      assert s[..i + 1] == [s[0]] + s[1..][..i];
      i + 1
  }

  /** `Array.prototype.join(sep)` on a list of strings. */
  function Join(fields: seq<JsString>, sep: CodeUnit): JsString {
    if |fields| == 0 then []
    else if |fields| == 1 then fields[0]
    else fields[0] + [sep] + Join(fields[1..], sep)
  }

  /** `s.split(sep)` for a one-unit separator: every field is returned,
      including empty ones, and no field contains the separator. SplitCount
      says there is one more field than there are separators. */
  function Split(s: JsString, sep: CodeUnit): (fields: seq<JsString>)
    ensures |fields| > 0
    ensures forall k :: 0 <= k < |fields| ==> sep !in fields[k]
    decreases |s|
  {
    if sep !in s then [s]
    else
      var i := IndexOf(s, sep);
      var rest := Split(s[i + 1..], sep);
      var fields := [s[..i]] + rest;
      assert forall k :: 1 <= k < |fields| ==> fields[k] == rest[k - 1];
      fields
  }

  /** `split` returns one more field than there are separators. */
  lemma {:induction false} SplitCount(s: JsString, sep: CodeUnit)
    ensures |Split(s, sep)| == Count(s, sep) + 1
    decreases |s|
  {
    if sep in s {
      var i := IndexOf(s, sep);
      SplitCount(s[i + 1..], sep);
      CountPastFirst(s, sep, i);
    }
  }

  /** Joining the fields of a split with the separator gives back the
      input. */
  lemma {:induction false} JoinSplit(s: JsString, sep: CodeUnit)
    ensures Join(Split(s, sep), sep) == s
    decreases |s|
  {
    if sep in s {
      var i := IndexOf(s, sep);
      var rest := Split(s[i + 1..], sep);
      JoinSplit(s[i + 1..], sep);
      var fields := Split(s, sep);
      assert fields == [s[..i]] + rest;
      assert |fields| >= 2;
      assert fields[0] == s[..i] && fields[1..] == rest;
      calc {
        Join(fields, sep);
        fields[0] + [sep] + Join(fields[1..], sep);
        s[..i] + [sep] + s[i + 1..];
        { assert s == s[..i] + [sep] + s[i + 1..]; }
        s;
      }
    }
  }

  /** The first separator of `a + [c] + b` is the one after `a` when `a`
      holds none. */
  lemma {:induction false} IndexOfAfter(a: JsString, b: JsString, c: CodeUnit)
    requires c !in a
    ensures c in a + [c] + b && IndexOf(a + [c] + b, c) == |a|
    decreases |a|
  {
    var s := a + [c] + b;
    assert s[|a|] == c;
    if a != [] {
      assert s[1..] == a[1..] + [c] + b;
      IndexOfAfter(a[1..], b, c);
    }
  }

  /** Splitting at a first separator after separator-free `a`. */
  lemma {:induction false} SplitAtFirst(a: JsString, b: JsString, sep: CodeUnit)
    requires sep !in a
    ensures Split(a + [sep] + b, sep) == [a] + Split(b, sep)
  {
    var s := a + [sep] + b;
    IndexOfAfter(a, b, sep);
    assert s[..|a|] == a && s[|a| + 1..] == b;
  }

  /** `split` undoes `join`: splitting the join of separator-free fields
      gives back exactly those fields. */
  lemma {:induction false} SplitJoin(fields: seq<JsString>, sep: CodeUnit)
    requires |fields| > 0
    requires forall k :: 0 <= k < |fields| ==> sep !in fields[k]
    ensures Split(Join(fields, sep), sep) == fields
    decreases |fields|
  {
    if |fields| > 1 {
      var tail := fields[1..];
      assert Join(fields, sep) == fields[0] + [sep] + Join(tail, sep);
      SplitAtFirst(fields[0], Join(tail, sep), sep);
      assert forall k :: 0 <= k < |tail| ==> tail[k] == fields[k + 1];
      SplitJoin(tail, sep);
      assert fields == [fields[0]] + tail;
    }
  }

  /** A string splits into exactly two fields when it holds exactly one
      separator, and the two fields are what surrounds it. */
  lemma {:induction false} SplitTwo(a: JsString, b: JsString, sep: CodeUnit)
    requires sep !in a && sep !in b
    ensures Split(a + [sep] + b, sep) == [a, b]
  {
    SplitJoin([a, b], sep);
    assert Join([a, b], sep) == a + [sep] + Join([b], sep);
  }
}
