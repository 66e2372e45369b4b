/** The few Python string operations the web layer relies on, with Python's meaning. */
module PyStr {

  datatype Option<T> = None | Some(value: T)

  /** `pat` occurs in `s` starting at index `i`. */
  predicate Occurs(s: string, pat: string, i: int)
  {
    0 <= i && i + |pat| <= |s| && s[i..i + |pat|] == pat
  }

  /** `s.startswith(p)` */
  predicate StartsWith(s: string, p: string)
  {
    |p| <= |s| && s[..|p|] == p
  }

  /** `s.endswith(p)` */
  predicate EndsWith(s: string, p: string)
  {
    |p| <= |s| && s[|s| - |p|..] == p
  }

  /** `s.replace(pat, rep)`: every non-overlapping occurrence, scanned left to right, is replaced.
      Python's replace is case-sensitive; an empty `pat` is never used by the web layer. */
  function Replace(s: string, pat: string, rep: string): string
    requires pat != []
    decreases |s|
  {
    if |s| < |pat| then s
    else if s[..|pat|] == pat then rep + Replace(s[|pat|..], pat, rep)
    else [s[0]] + Replace(s[1..], pat, rep)
  }

  /** Dropping the first character shifts every occurrence one place to the left. */
  lemma OccursShift(s: string, pat: string, i: int)
    requires s != [] && 0 <= i
    ensures Occurs(s[1..], pat, i) == Occurs(s, pat, i + 1)
  {
    if i + |pat| <= |s[1..]| {
      assert s[1..][i..i + |pat|] == s[i + 1..i + 1 + |pat|];
    }
  }

  /** A string in which `pat` does not occur is left unchanged by Replace. */
  lemma {:induction false} ReplaceAbsent(s: string, pat: string, rep: string)
    requires pat != []
    requires forall i :: !Occurs(s, pat, i)
    ensures Replace(s, pat, rep) == s
  {
    if |s| >= |pat| {
      assert s[..|pat|] != pat by { assert !Occurs(s, pat, 0); assert s[0..0 + |pat|] == s[..|pat|]; }
      forall i ensures !Occurs(s[1..], pat, i) {
        if 0 <= i { OccursShift(s, pat, i); }
      }
      ReplaceAbsent(s[1..], pat, rep);
      assert s == [s[0]] + s[1..];
    }
  }

  /** When no occurrence of `pat` starts inside the prefix `a`, Replace leaves `a` alone
      and works on `w` only. */
  lemma {:induction false} ReplaceAfterPrefix(a: string, w: string, pat: string, rep: string)
    requires pat != [] && |pat| <= |w|
    requires forall i :: 0 <= i < |a| ==> !Occurs(a + w, pat, i)
    ensures Replace(a + w, pat, rep) == a + Replace(w, pat, rep)
  {
    if a != [] {
      var s := a + w;
      var a' := a[1..];
      var t := Replace(w, pat, rep);
      assert s[..|pat|] != pat by { assert !Occurs(s, pat, 0); assert s[0..0 + |pat|] == s[..|pat|]; }
      assert s[1..] == a' + w;
      assert Replace(s, pat, rep) == [a[0]] + Replace(a' + w, pat, rep);
      assert Replace(a' + w, pat, rep) == a' + t by {
        forall i | 0 <= i < |a'| ensures !Occurs(a' + w, pat, i) {
          assert !Occurs(s, pat, i + 1);
          OccursShift(s, pat, i);
        }
        ReplaceAfterPrefix(a', w, pat, rep);
      }
      assert [a[0]] + (a' + t) == a + t by { assert a == [a[0]] + a'; }
    } else {
      assert a + w == w;
    }
  }

  /** Replacing one character by another keeps the length and changes exactly the matching positions
      (`custom_pages.replace(',', ' ')`). */
  lemma {:induction false} ReplaceChar(s: string, c: char, d: char)
    ensures |Replace(s, [c], [d])| == |s|
    ensures forall i :: 0 <= i < |s| ==> Replace(s, [c], [d])[i] == if s[i] == c then d else s[i]
  {
    if s != [] {
      ReplaceChar(s[1..], c, d);
      var r := Replace(s, [c], [d]);
      var t := Replace(s[1..], [c], [d]);
      assert s[..1] == [s[0]];
      assert r == (if s[0] == c then [d] else [s[0]]) + t;
      forall i | 0 <= i < |s| ensures r[i] == if s[i] == c then d else s[i] {
        if i > 0 { assert r[i] == t[i - 1]; assert s[i] == s[1..][i - 1]; }
      }
    }
  }

  /** ASCII lower-casing of one character. */
  function LowerChar(c: char): char
  {
    if 'A' <= c <= 'Z' then (c as int + 32) as char else c
  }

  /** `s.lower()` on ASCII text. */
  function Lower(s: string): (r: string)
    ensures |r| == |s|
  {
    seq(|s|, i requires 0 <= i < |s| => LowerChar(s[i]))
  }

  /** The first index of `c` in `s`, as `s.find(c)` gives it. */
  function FirstIndex(s: string, c: char): (r: Option<nat>)
    ensures r.None? ==> forall k :: 0 <= k < |s| ==> s[k] != c
    ensures r.Some? ==> r.value < |s| && s[r.value] == c && forall k :: 0 <= k < r.value ==> s[k] != c
  {
    if s == [] then None
    else if s[0] == c then Some(0)
    else match FirstIndex(s[1..], c)
      case None => None
      case Some(k) => Some(k + 1)
  }

  /** The last index of `c` in `s`, as `s.rfind(c)` gives it. */
  function LastIndex(s: string, c: char): (r: Option<nat>)
    ensures r.None? ==> forall k :: 0 <= k < |s| ==> s[k] != c
    ensures r.Some? ==> r.value < |s| && s[r.value] == c && forall k :: r.value < k < |s| ==> s[k] != c
  {
    if s == [] then None
    else if s[|s| - 1] == c then Some(|s| - 1)
    else LastIndex(s[..|s| - 1], c)
  }

  /** The characters `str.isspace` accepts: the ASCII controls tab to carriage return and the
      file, group, record and unit separators, the space, and the Unicode spaces and line and
      paragraph separators. */
  predicate IsSpace(c: char)
  {
    || '\t' <= c <= '\r' || '\U{1C}' <= c <= '\U{1F}' || c == ' ' || c == '\U{85}' || c == '\U{A0}'
    || c == '\U{1680}' || '\U{2000}' <= c <= '\U{200A}' || c == '\U{2028}' || c == '\U{2029}'
    || c == '\U{202F}' || c == '\U{205F}' || c == '\U{3000}'
  }

  /** `s` with its ends `s[..i]` and `s[j..]` wholly whitespace. */
  ghost predicate TrimmedAt(s: string, i: int, j: int)
  {
    && 0 <= i <= j <= |s|
    && (forall k :: 0 <= k < i ==> IsSpace(s[k]))
    && (forall k :: j <= k < |s| ==> IsSpace(s[k]))
  }

  /** `s.strip()`: `s` without its leading and trailing whitespace. */
  function Strip(s: string): (r: string)
    ensures |r| <= |s|
    ensures r != [] ==> !IsSpace(r[0]) && !IsSpace(r[|r| - 1])
    ensures forall c :: c in r ==> c in s
    ensures exists i, j :: TrimmedAt(s, i, j) && r == s[i..j]
    decreases |s|
  {
    if s == [] then
      assert TrimmedAt(s, 0, 0) && [] == s[0..0];
      []
    else if IsSpace(s[0]) then
      var r := Strip(s[1..]);
      TrimFront(s, r);
      r
    else if IsSpace(s[|s| - 1]) then
      var r := Strip(s[..|s| - 1]);
      TrimBack(s, s[..|s| - 1], r);
      r
    else
      assert TrimmedAt(s, 0, |s|) && s == s[0..|s|];
      s
  }

  /** Trimming a leading whitespace character first does not change what a trim can give. */
  lemma TrimFront(s: string, r: string)
    requires s != [] && IsSpace(s[0])
    requires exists i, j :: TrimmedAt(s[1..], i, j) && r == s[1..][i..j]
    ensures exists i, j :: TrimmedAt(s, i, j) && r == s[i..j]
  {
    var i, j :| TrimmedAt(s[1..], i, j) && r == s[1..][i..j];
    assert forall k :: 0 <= k < |s| - 1 ==> s[1..][k] == s[k + 1];
    assert TrimmedAt(s, i + 1, j + 1) && r == s[i + 1..j + 1];
  }

  /** The same for a trailing whitespace character: `t` is `s` without it. */
  lemma TrimBack(s: string, t: string, r: string)
    requires s != [] && IsSpace(s[|s| - 1]) && t == s[..|s| - 1]
    requires exists i, j :: TrimmedAt(t, i, j) && r == t[i..j]
    ensures exists i, j :: TrimmedAt(s, i, j) && r == s[i..j]
  {
    var i, j :| TrimmedAt(t, i, j) && r == t[i..j];
    assert forall k :: 0 <= k < |t| ==> s[k] == t[k];
    assert TrimmedAt(s, i, j) && r == s[i..j];
  }

  /** Decimal digits of a natural number, as `str(n)` gives them. */
  function NatToString(n: nat): (r: string)
    ensures r != [] && forall c :: c in r ==> '0' <= c <= '9'
    decreases n
  {
    var d := ['0' + (n % 10) as char];
    if n < 10 then d else NatToString(n / 10) + d
  }

  /** `str(n)` for an integer. */
  function IntToString(n: int): (r: string)
    ensures r != []
    ensures n < 0 <==> r[0] == '-'
  {
    if n < 0 then "-" + NatToString(-n)
    else
      var s := NatToString(n);
      assert s[0] in s;
      s
  }
}
