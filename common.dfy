/** Shared vocabulary of the handlers and pages: optional values, roles,
    HTTP status codes, and the string operations PHP and JavaScript apply to
    request fields (trim, `empty`, ASCII case mapping, substring tests). */
module Common {

  datatype Option<T> = None | Some(value: T)

  /** The three roles of `profiles.role` and of the login token. */
  datatype Role = Admin | Operator | User

  /** The request methods the handlers distinguish. */
  datatype HttpMethod = Get | Post | Put | Delete

  /** Row identifiers (UUID strings in the schema). */
  type Id = string

  const StatusOk: int := 200
  const StatusCreated: int := 201
  const StatusBadRequest: int := 400
  const StatusForbidden: int := 403
  const StatusNotFound: int := 404
  const StatusMethodNotAllowed: int := 405
  const StatusServerError: int := 500

  /** PHP's `empty()` on a string: the empty string and "0" are empty. */
  predicate PhpEmpty(s: string) {
    s == "" || s == "0"
  }

  /** PHP's `empty()` on a request field that may be absent (null). */
  predicate PhpEmptyField(o: Option<string>) {
    o.None? || PhpEmpty(o.value)
  }

  /** JavaScript truthiness of an optional string: null and "" are falsy. */
  predicate JsTruthy(o: Option<string>) {
    o.Some? && o.value != ""
  }

  /** The characters PHP's `trim` removes by default. */
  const PhpSpace: set<char> := {' ', '\t', '\n', '\r', 0 as char, 11 as char}

  /** The ASCII characters JavaScript's `String.prototype.trim` removes. */
  const JsSpace: set<char> := {' ', '\t', '\n', '\r', 11 as char, 12 as char}

  /** Drops the leading characters of `s` that are in `ws`. */
  function TrimStart(s: string, ws: set<char>): (r: string)
    ensures |r| <= |s| && r == s[|s| - |r|..]
    ensures r == [] || r[0] !in ws
    ensures forall i :: 0 <= i < |s| - |r| ==> s[i] in ws
  {
    if s != [] && s[0] in ws then TrimStart(s[1..], ws) else s
  }

  /** Drops the trailing characters of `s` that are in `ws`. */
  function TrimEnd(s: string, ws: set<char>): (r: string)
    ensures |r| <= |s| && r == s[..|r|]
    ensures r == [] || r[|r| - 1] !in ws
    ensures forall i :: |r| <= i < |s| ==> s[i] in ws
  {
    if s != [] && s[|s| - 1] in ws then TrimEnd(s[..|s| - 1], ws) else s
  }

  /** `r` sits at index `i` of `s`, and every character of `s` before or
      after it is in `ws`. */
  predicate StrippedAt(s: string, r: string, ws: set<char>, i: int) {
    && OccursAt(s, r, i)
    && (forall k :: 0 <= k < i ==> s[k] in ws)
    && (forall k :: i + |r| <= k < |s| ==> s[k] in ws)
  }

  /** Removes the characters of `ws` at both ends of `s`: what is left is a
      piece of `s` with no such character at either end, and only characters
      of `ws` were removed around it. */
  function Trim(s: string, ws: set<char>): (r: string)
    ensures r == [] || (r[0] !in ws && r[|r| - 1] !in ws)
    ensures exists i :: StrippedAt(s, r, ws, i)
  {
    var t := TrimStart(s, ws);
    var r := TrimEnd(t, ws);
    StrippedAtOfParts(s, t, r, ws);
    r
  }

  /** Blanks dropped from the front of `s`, giving `t`, and then from the back
      of `t`, giving `r`, leave `r` stripped out of `s`. */
  lemma StrippedAtOfParts(s: string, t: string, r: string, ws: set<char>)
    requires |t| <= |s| && t == s[|s| - |t|..] && forall k :: 0 <= k < |s| - |t| ==> s[k] in ws
    requires |r| <= |t| && r == t[..|r|] && forall k :: |r| <= k < |t| ==> t[k] in ws
    ensures StrippedAt(s, r, ws, |s| - |t|)
  {
    var i := |s| - |t|;
    assert s[i..i + |r|] == r;
    forall k | i + |r| <= k < |s| ensures s[k] in ws {
      assert s[k] == t[k - i];
    }
  }

  /** Trimming twice is trimming once. */
  lemma {:induction false} TrimIdempotent(s: string, ws: set<char>)
    ensures Trim(Trim(s, ws), ws) == Trim(s, ws)
  {
    var r := Trim(s, ws);
    assert TrimStart(r, ws) == r;
    assert TrimEnd(r, ws) == r;
  }

  function LowerChar(c: char): char {
    if 'A' <= c <= 'Z' then (c as int + 32) as char else c
  }

  function UpperChar(c: char): char {
    if 'a' <= c <= 'z' then (c as int - 32) as char else c
  }

  /** ASCII `toLowerCase`. */
  function Lower(s: string): (r: string)
    ensures |r| == |s|
    ensures forall i :: 0 <= i < |s| ==> r[i] == LowerChar(s[i])
  {
    if s == [] then [] else [LowerChar(s[0])] + Lower(s[1..])
  }

  /** ASCII `toUpperCase`. */
  function Upper(s: string): (r: string)
    ensures |r| == |s|
    ensures forall i :: 0 <= i < |s| ==> r[i] == UpperChar(s[i])
  {
    if s == [] then [] else [UpperChar(s[0])] + Upper(s[1..])
  }

  /** `sub` occurs in `s` starting at index `i`. */
  predicate OccursAt(s: string, sub: string, i: int) {
    0 <= i && i + |sub| <= |s| && s[i..i + |sub|] == sub
  }

  /** JavaScript `s.includes(sub)`. */
  predicate Contains(s: string, sub: string) {
    exists i | 0 <= i <= |s| - |sub| :: OccursAt(s, sub, i)
  }

  /** JavaScript `s.startsWith(p)`. */
  predicate StartsWith(s: string, p: string) {
    |p| <= |s| && s[..|p|] == p
  }

  /** The empty string is contained in every string. */
  lemma ContainsEmpty(s: string)
    ensures Contains(s, "")
  {
    assert OccursAt(s, "", 0);
  }

  /** `xs` keeps some of the elements of `ys`, in their order. */
  predicate IsSubsequence<T(==)>(xs: seq<T>, ys: seq<T>)
    decreases |ys|
  {
    if xs == [] then true
    else if ys == [] then false
    else if xs[0] == ys[0] then IsSubsequence(xs[1..], ys[1..])
    else IsSubsequence(xs, ys[1..])
  }

  /** Every sequence is a subsequence of itself. */
  lemma {:induction false} SubsequenceRefl<T>(xs: seq<T>)
    ensures IsSubsequence(xs, xs)
  {
    if xs != [] {
      SubsequenceRefl(xs[1..]);
    }
  }

  /** Dropping the first element of a subsequence leaves a subsequence. */
  lemma {:induction false} SubsequenceDropHead<T>(xs: seq<T>, ys: seq<T>)
    requires xs != [] && IsSubsequence(xs, ys)
    ensures IsSubsequence(xs[1..], ys)
    decreases |ys|, 0
  {
    if xs[0] == ys[0] {
      SubsequenceSkip(xs[1..], ys[1..], ys[0]);
    } else {
      SubsequenceDropHead(xs, ys[1..]);
      SubsequenceSkip(xs[1..], ys[1..], ys[0]);
    }
  }

  /** A subsequence of `ys` is a subsequence of `[y] + ys`. */
  lemma {:induction false} SubsequenceSkip<T>(xs: seq<T>, ys: seq<T>, y: T)
    requires IsSubsequence(xs, ys)
    ensures IsSubsequence(xs, [y] + ys)
    decreases |ys|, 1
  {
    var zs := [y] + ys;
    assert zs[1..] == ys;
    if xs != [] && xs[0] == y {
      SubsequenceDropHead(xs, ys);
    }
  }

  /** Being a subsequence is transitive. */
  lemma {:induction false} SubsequenceTrans<T>(xs: seq<T>, ys: seq<T>, zs: seq<T>)
    requires IsSubsequence(xs, ys) && IsSubsequence(ys, zs)
    ensures IsSubsequence(xs, zs)
    decreases |zs|
  {
    if xs != [] && ys != [] && zs != [] {
      if ys[0] == zs[0] {
        if xs[0] == ys[0] {
          SubsequenceTrans(xs[1..], ys[1..], zs[1..]);
        } else {
          SubsequenceTrans(xs, ys[1..], zs[1..]);
        }
      } else {
        SubsequenceTrans(xs, ys, zs[1..]);
        if xs[0] == zs[0] {
          SubsequenceDropHead(xs, zs[1..]);
        }
      }
    }
  }

  /** The elements of a subsequence are elements of the whole. */
  lemma {:induction false} SubsequenceMembers<T>(xs: seq<T>, ys: seq<T>)
    requires IsSubsequence(xs, ys)
    ensures forall x :: x in xs ==> x in ys
    decreases |ys|
  {
    if xs != [] && ys != [] {
      if xs[0] == ys[0] {
        SubsequenceMembers(xs[1..], ys[1..]);
        assert xs == [xs[0]] + xs[1..];
      } else {
        SubsequenceMembers(xs, ys[1..]);
      }
    }
  }

  /** No element occurs twice. */
  predicate Distinct<T(==)>(s: seq<T>) {
    forall i, j :: 0 <= i < j < |s| ==> s[i] != s[j]
  }

  const HexDigits: string := "0123456789abcdef"

  /** The lower-case hexadecimal digit of `d`, as `%x` and `bin2hex` print it. */
  function HexDigit(d: nat): (c: char)
    requires d < 16
    ensures c in HexDigits
  {
    HexDigits[d]
  }

  /** The value of a lower-case hexadecimal digit (0 for any other character). */
  function HexValue(c: char): (d: nat)
    ensures d < 16
  {
    if '0' <= c <= '9' then c as int - '0' as int
    else if 'a' <= c <= 'f' then c as int - 'a' as int + 10
    else 0
  }

  /** Every character is a lower-case hexadecimal digit. */
  predicate AllHex(s: string) {
    forall j :: 0 <= j < |s| ==> s[j] in HexDigits
  }

  /** Reading a printed digit gives back its value. */
  lemma HexDigitRoundTrip(d: nat)
    requires d < 16
    ensures HexValue(HexDigit(d)) == d
  {
  }
}
