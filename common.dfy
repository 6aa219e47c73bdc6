/**
 * Shared vocabulary: nullable values, entity keys, .NET time units and the
 * handful of .NET string operations the controllers rely on
 * (string.IsNullOrWhiteSpace, string.Trim, StringComparer.OrdinalIgnoreCase).
 */
module Common {

  /** A C# nullable value (`T?`) or a JSON field that may be absent. */
  datatype Option<+T> = None | Some(value: T) {
    /** The `??` operator: the value, or `default` when null. */
    function GetOr(default: T): T {
      match this
      case Some(v) => v
      case None => default
    }
  }

  /**
   * What a controller action answers: 200 with a value, one of the error
   * results it returns with a reason code, or Failed when SaveChanges
   * throws (a unique index violated) and the request ends in a 500 with
   * nothing saved.
   */
  datatype Reply<+T> =
    | Ok(value: T)
    | BadRequest(error: string)
    | NotFound(error: string)
    | Conflict(error: string)
    | Failed(error: string)

  /** A Guid primary key. */
  type Id = nat

  /** .NET DateTime ticks: 100 ns each. Every instant in the model is an int of ticks. */
  const TicksPerSecond: int := 10_000_000
  const TicksPerDay: int := 86_400 * TicksPerSecond

  function Max(a: int, b: int): (r: int)
    ensures r >= a && r >= b && (r == a || r == b)
  {
    if a >= b then a else b
  }

  /**
   * C#'s integer conversion of a quotient: truncation toward zero, which is
   * what `(int)elapsed.TotalSeconds` does. Dafny's own `/` is Euclidean.
   */
  function TruncDiv(a: int, b: int): (r: int)
    requires b > 0
    ensures a >= 0 ==> 0 <= r && r * b <= a < r * b + b
    ensures a < 0 ==> r <= 0 && r * b - b < a <= r * b
  {
    if a >= 0 then
      DivFacts(a, b);
      a / b
    else
      DivFacts(-a, b);
      NegMul((-a) / b, b);
      -((-a) / b)
  }

  /** Euclidean division of a non-negative number: the quotient's multiple is within one divisor. */
  lemma DivFacts(a: int, b: int)
    requires a >= 0 && b > 0
    ensures 0 <= a / b && (a / b) * b <= a < (a / b) * b + b
  {
    assert a == (a / b) * b + a % b;
  }

  lemma NegMul(q: int, b: int)
    ensures (-q) * b == -(q * b)
  {
  }

  /** Char.IsWhiteSpace: the Unicode space, line and paragraph separators plus U+0009..U+000D and U+0085. */
  predicate IsWhiteSpace(c: char) {
    || c == ' ' || '\t' <= c <= '\r' || c == '\U{0085}' || c == '\U{00A0}' || c == '\U{1680}'
    || '\U{2000}' <= c <= '\U{200A}' || c == '\U{2028}' || c == '\U{2029}' || c == '\U{202F}'
    || c == '\U{205F}' || c == '\U{3000}'
  }

  predicate IsBlank(s: string) {
    forall i :: 0 <= i < |s| ==> IsWhiteSpace(s[i])
  }

  /** string.IsNullOrWhiteSpace */
  predicate IsNullOrWhiteSpace(s: Option<string>) {
    s.None? || IsBlank(s.value)
  }

  /** The number of white-space characters `s` starts with: what TrimStart removes. */
  function Lead(s: string): (n: nat)
    ensures n <= |s| && (n < |s| ==> !IsWhiteSpace(s[n]))
  {
    if s != [] && IsWhiteSpace(s[0]) then
      var n := 1 + Lead(s[1..]);
      assert n < |s| ==> s[n] == s[1..][n - 1];
      n
    else 0
  }

  /** The length of `s` without the white space it ends with: what TrimEnd keeps. */
  function Body(s: string): (n: nat)
    ensures n <= |s| && (n > 0 ==> !IsWhiteSpace(s[n - 1]))
  {
    if s != [] && IsWhiteSpace(s[|s| - 1]) then
      var n := Body(s[..|s| - 1]);
      assert n > 0 ==> s[n - 1] == s[..|s| - 1][n - 1];
      n
    else |s|
  }

  /** What Lead counts is white space. */
  lemma {:induction false} LeadIsBlank(s: string)
    ensures IsBlank(s[..Lead(s)])
  {
    if s != [] && IsWhiteSpace(s[0]) {
      LeadIsBlank(s[1..]);
      var n := Lead(s);
      assert forall i :: 1 <= i < n ==> s[..n][i] == s[1..][..n - 1][i - 1];
    }
  }

  /** What Body leaves out is white space. */
  lemma {:induction false} BodyRestIsBlank(s: string)
    ensures IsBlank(s[Body(s)..])
  {
    if s != [] && IsWhiteSpace(s[|s| - 1]) {
      var s' := s[..|s| - 1];
      BodyRestIsBlank(s');
      var n := Body(s);
      assert forall j :: 0 <= j < |s'| - n ==> s[n..][j] == s'[n..][j];
    }
  }

  /** `sub` occurs in `s` starting at position `k`. */
  predicate InfixAt(s: string, sub: string, k: int) {
    0 <= k <= |s| - |sub| && s[k..k + |sub|] == sub
  }

  /**
   * string.Trim: the infix of `s` that neither starts nor ends with white
   * space; it is empty exactly when `s` is blank. TrimDropsOnlyBlank shows
   * that only white space is left around it.
   */
  function Trim(s: string): (r: string)
    ensures exists k :: InfixAt(s, r, k)
    ensures r == [] || (!IsWhiteSpace(r[0]) && !IsWhiteSpace(r[|r| - 1]))
    ensures r == [] <==> IsBlank(s)
  {
    var a := Lead(s);
    var n := Body(s[a..]);
    assert InfixAt(s, s[a..a + n], a);
    assert n > 0 ==> s[a..a + n][n - 1] == s[a..][n - 1];
    TrimEmptyIffBlank(s);
    s[a..a + n]
  }

  lemma {:induction false} TrimEmptyIffBlank(s: string)
    ensures Body(s[Lead(s)..]) == 0 <==> IsBlank(s)
  {
    var a := Lead(s);
    var t := s[a..];
    if Body(t) == 0 {
      LeadIsBlank(s);
      BodyRestIsBlank(t);
      assert t[0..] == t;
      assert a == |s|;
      assert s[..a] == s;
    } else {
      assert Body(t) <= |t| && t[0] == s[a];
    }
  }

  /** Trim removes only white space: everything before and after the result is blank. */
  lemma {:induction false} TrimDropsOnlyBlank(s: string)
    ensures var k := Lead(s);
      InfixAt(s, Trim(s), k) && IsBlank(s[..k]) && IsBlank(s[k + |Trim(s)|..])
  {
    var k := Lead(s);
    var t := s[k..];
    var n := Body(t);
    LeadIsBlank(s);
    BodyRestIsBlank(t);
    assert t[n..] == s[k + n..];
  }

  /** Trimming twice is trimming once. */
  lemma {:induction false} TrimIdempotent(s: string)
    ensures Trim(Trim(s)) == Trim(s)
  {
    var r := Trim(s);
    assert Lead(r) == 0;
    assert r[0..] == r;
    assert Body(r) == |r|;
  }

  /** The single-character upper-casing used by OrdinalIgnoreCase, on ASCII letters. */
  function FoldChar(c: char): char {
    if 'a' <= c <= 'z' then (c as int - 32) as char else c
  }

  function Fold(s: string): (r: string)
    ensures |r| == |s|
  {
    seq(|s|, i requires 0 <= i < |s| => FoldChar(s[i]))
  }

  /** StringComparer.OrdinalIgnoreCase equality. */
  predicate EqualsIgnoreCase(a: string, b: string) {
    Fold(a) == Fold(b)
  }

  /** `sub` occurs in `s` as a contiguous infix. */
  predicate Contains(s: string, sub: string) {
    exists i | 0 <= i <= |s| - |sub| :: InfixAt(s, sub, i)
  }
}
