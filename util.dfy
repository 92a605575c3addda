/**
 * The sequential helpers of the Util class: bit truncation and sign
 * extension of big integers, column numbers, predicate searches in a string
 * (optionally skipping comments), a binary search with a comparator between
 * two types, and stripping type qualifiers.
 */
module Util {
  import opened BigInteger

  datatype Option<T> = None | Some(value: T)

  /** The Java exceptions the helpers can raise. */
  datatype Exception = ArithmeticException

  /** A normal return value, or the exception the Java method throws. */
  datatype Outcome<T> = Ok(value: T) | Thrown(exception: Exception)

  // ---------------------------------------------------------------------
  // maskBits and cutBits

  /** A Java `int`. */
  type Int32 = x: int | -0x8000_0000 <= x < 0x8000_0000

  /** Java's `int` arithmetic: the result wraps around modulo 2^32. */
  function Wrap(x: int): (r: Int32)
    ensures (r - x) % 0x1_0000_0000 == 0
    ensures -0x8000_0000 <= x < 0x8000_0000 ==> r == x
  {
    (x + 0x8000_0000) % 0x1_0000_0000 - 0x8000_0000
  }

  /**
   * The mask both helpers build, BigInteger.ONE.shiftLeft(bits) - 1:
   * `bits` low 1 bits, or all 1 bits for a negative `bits`, which shifts
   * the 1 out to the right.
   */
  function Mask(bits: int): (r: int)
    ensures bits >= 0 ==> r == Pow2(bits) - 1
    ensures bits < 0 ==> r == -1
  {
    assert bits < 0 ==> ShiftLeft(1, bits) == 0 by {
      if bits < 0 {
        ShiftOneRight(bits);
      }
    }
    ShiftLeft(1, bits) - 1
  }

  /** What masking does to a value. */
  lemma AndMask(value: int, bits: int)
    ensures bits >= 0 ==> And(value, Mask(bits)) == value % Pow2(bits)
    ensures bits < 0 ==> And(value, Mask(bits)) == value
  {
    if bits >= 0 {
      AndLowOnes(value, bits);
    } else {
      AndAllOnes(value);
    }
  }

  /**
   * maskBits: value AND mask. For a bit count that is not negative this is
   * the residue of `value` modulo 2^bits, a number in [0, 2^bits); a
   * negative bit count shifts the 1 right, so the mask is all 1 bits and the
   * value comes back unchanged.
   */
  function MaskBits(value: int, bits: Int32): (r: int)
    ensures bits >= 0 ==> 0 <= r < Pow2(bits) && r == value % Pow2(bits)
    ensures bits < 0 ==> r == value
  {
    AndMask(value, bits);
    And(value, Mask(bits))
  }

  /**
   * cutBits: keep the low `bits` bits, and if bit `bits - 1` is set, set
   * every bit above it (value.or(mask.not())), which makes the result
   * negative. The bit index `bits - 1` is computed in `int` arithmetic, and
   * BigInteger.testBit throws ArithmeticException for a negative index, so
   * a bit count in [-2^31 + 1, 0] throws, while -2^31 wraps to the index
   * 2^31 - 1 and, its mask being all 1 bits, returns the value unchanged.
   * For a positive bit count the result is the unique number in
   * [-2^(bits-1), 2^(bits-1)) congruent to `value` modulo 2^bits, i.e.
   * `value` read as a `bits`-wide two's-complement integer.
   */
  function CutBits(value: int, bits: Int32): (r: Outcome<int>)
    ensures r.Thrown? <==> -0x8000_0000 < bits < 1
    ensures bits == -0x8000_0000 ==> r == Ok(value)
    ensures bits >= 1 ==> r.Ok? && -Pow2(bits - 1) <= r.value < Pow2(bits - 1)
    ensures bits >= 1 ==> r.Ok? && r.value % Pow2(bits) == value % Pow2(bits)
    ensures bits >= 1 ==> r.Ok? && var m := MaskBits(value, bits);
                          r.value == if m >= Pow2(bits - 1) then m - Pow2(bits) else m
  {
    var mask := Mask(bits);
    var masked := And(value, mask);
    var index := Wrap(bits - 1);
    if index < 0 then
      Thrown(ArithmeticException)
    else if bits < 1 then
      AndAllOnes(value);
      OrZero(value);
      assert masked == value && Not(mask) == 0;
      if TestBit(masked, index) then Ok(Or(masked, Not(mask))) else Ok(masked)
    else
      AndMask(value, bits);
      assert masked == MaskBits(value, bits) && 0 <= masked < Pow2(bits);
      assert Pow2(bits) == 2 * Pow2(bits - 1);
      TestBitTop(masked, bits - 1);
      if TestBit(masked, index) then
        assert Not(mask) == -Pow2(bits);
        OrHighOnes(masked, bits);
        DivModUnique(masked - Pow2(bits), Pow2(bits), -1, masked);
        Ok(Or(masked, Not(mask)))
      else
        DivModUnique(masked, Pow2(bits), 0, masked);
        Ok(masked)
  }

  /** The example of the documentation: 416 (0x01a0) cut to 8 bits is -96 (0xffa0). */
  lemma CutBitsDocExample()
    ensures CutBits(416, 8) == Ok(-96)
  {
    assert Pow2(8) == 256 && Pow2(7) == 128;
    CutBitsUnique(416, 8, -96);
  }

  /** The range and the congruence of CutBits pin the result down. */
  lemma CutBitsUnique(value: int, bits: Int32, x: int)
    requires bits >= 1
    requires -Pow2(bits - 1) <= x < Pow2(bits - 1) && x % Pow2(bits) == value % Pow2(bits)
    ensures CutBits(value, bits) == Ok(x)
  {
    var y := CutBits(value, bits).value;
    var p := Pow2(bits);
    assert p == 2 * Pow2(bits - 1);
    var m := value % p;
    if x >= 0 {
      DivModUnique(x, p, 0, x);
    } else {
      DivModUnique(x, p, -1, x + p);
    }
    if y >= 0 {
      DivModUnique(y, p, 0, y);
    } else {
      DivModUnique(y, p, -1, y + p);
    }
  }

  // ---------------------------------------------------------------------
  // calculateColumnNumber

  /** `t` occurs in `s` starting at index `k` (String.startsWith(t, k)). */
  predicate OccursAt(s: string, t: string, k: int)
  {
    0 <= k && k + |t| <= |s| && s[k..k + |t|] == t
  }

  /** The last start of `t` in `s` at or before `k`, or -1. */
  function LastIndexAtOrBefore(s: string, t: string, k: int): (r: int)
    ensures r == -1 || (0 <= r <= k && OccursAt(s, t, r))
    ensures forall j :: r < j <= k ==> !OccursAt(s, t, j)
    decreases k + 1
  {
    if k < 0 then -1
    else if OccursAt(s, t, k) then k
    else LastIndexAtOrBefore(s, t, k - 1)
  }

  /**
   * String.lastIndexOf(t, fromIndex): the largest k <= fromIndex at which
   * `t` occurs, or -1.
   */
  function LastIndexOf(s: string, t: string, fromIndex: int): (r: int)
    ensures r == -1 || (0 <= r <= fromIndex && OccursAt(s, t, r))
    ensures forall j :: r < j <= fromIndex ==> !OccursAt(s, t, j)
  {
    LastIndexAtOrBefore(s, t, if fromIndex <= |s| then fromIndex else |s|)
  }

  ghost predicate NoDelimiterUpTo(source: string, delim: string, offset: int)
  {
    forall k :: 0 <= k <= offset ==> !OccursAt(source, delim, k)
  }

  /** `k` is the last start of `delim` at or before `offset`. */
  ghost predicate IsLastDelimiter(source: string, delim: string, offset: int, k: int)
  {
    0 <= k <= offset && OccursAt(source, delim, k) &&
    forall j :: k < j <= offset ==> !OccursAt(source, delim, j)
  }

  /**
   * calculateColumnNumber: the distance of `offset` from the end of the last
   * line delimiter that starts at or before it; `offset` itself when there
   * is none.
   */
  function CalculateColumnNumber(source: string, offset: int, lineDelimiter: string): (col: int)
    ensures NoDelimiterUpTo(source, lineDelimiter, offset) ==> col == offset
    ensures !NoDelimiterUpTo(source, lineDelimiter, offset) ==>
              IsLastDelimiter(source, lineDelimiter, offset, offset - col - |lineDelimiter|)
  {
    var prevLF := LastIndexOf(source, lineDelimiter, offset);
    if prevLF >= 0 then offset - prevLF - |lineDelimiter| else offset
  }

  // ---------------------------------------------------------------------
  // indexOf

  /** A negative start index searches from 0. */
  function Start(fromIndex: int): nat
  {
    if fromIndex >= 0 then fromIndex else 0
  }

  /** `r` is the first index from Start(fromIndex) whose character satisfies `p`, or -1 if none does. */
  ghost predicate IsFirstMatch(s: string, p: char -> bool, fromIndex: int, r: int)
  {
    if r == -1 then
      forall i :: Start(fromIndex) <= i < |s| ==> !p(s[i])
    else
      Start(fromIndex) <= r < |s| && p(s[r]) &&
      forall i :: Start(fromIndex) <= i < r ==> !p(s[i])
  }

  /** indexOf(s, p, fromIndex): String.indexOf with a character predicate. */
  method IndexOf(s: string, p: char -> bool, fromIndex: int) returns (r: int)
    ensures IsFirstMatch(s, p, fromIndex, r)
  {
    var i := if fromIndex >= 0 then fromIndex else 0;
    while i < |s|
      invariant Start(fromIndex) <= i
      invariant forall j :: Start(fromIndex) <= j < i && j < |s| ==> !p(s[j])
    {
      if p(s[i]) {
        return i;
      }
      i := i + 1;
    }
    return -1;
  }

  // ---------------------------------------------------------------------
  // indexOf skipping comments

  /** A comment of the syntax tree: its file offset and its length. */
  datatype Comment = Comment(offset: nat, length: nat)

  /** Index `i` lies inside comment `c` once the comment is moved by `commentOffset`. */
  predicate Covers(c: Comment, commentOffset: int, i: int)
  {
    commentOffset + c.offset <= i < commentOffset + c.offset + c.length
  }

  ghost predicate InAnyComment(cs: seq<Comment>, commentOffset: int, i: int)
  {
    exists k :: 0 <= k < |cs| && Covers(cs[k], commentOffset, i)
  }

  /**
   * The comments are in file order and do not overlap: each one ends at or
   * before the next one starts. This is the order the Arrays.sort call puts
   * the comments of a parsed file in.
   */
  ghost predicate InFileOrder(cs: seq<Comment>)
  {
    forall i, j :: 0 <= i < j < |cs| ==> cs[i].offset + cs[i].length <= cs[j].offset
  }

  /**
   * The TwoComparator that locates a position relative to a comment: 0 when
   * the comment covers it, -1 when the comment ends at or before it, 1 when
   * the comment starts after it.
   */
  function CompareCommentTo(commentOffset: int, a: Comment, b: int): (r: int)
    ensures r == 0 <==> Covers(a, commentOffset, b)
    ensures r == -1 <==> !Covers(a, commentOffset, b) && commentOffset + a.offset + a.length <= b
    ensures r == 1 <==> b < commentOffset + a.offset
  {
    var offset := commentOffset + a.offset;
    var length := a.length;
    if offset <= b && b < offset + length then 0
    else if offset + length <= b then -1
    else 1
  }

  /** `i` is a character that satisfies `p` and is not skipped as a comment. */
  ghost predicate Visible(s: string, p: char -> bool, comments: Option<seq<Comment>>, commentOffset: int, i: int)
    requires 0 <= i < |s|
  {
    p(s[i]) && (comments.Some? ==> !InAnyComment(comments.value, commentOffset, i))
  }

  /** `r` is the first visible index from Start(fromIndex), or -1 if there is none. */
  ghost predicate IsFirstVisible(s: string, p: char -> bool, fromIndex: int,
                                 comments: Option<seq<Comment>>, commentOffset: int, r: int)
  {
    if r == -1 then
      forall i :: Start(fromIndex) <= i < |s| ==> !Visible(s, p, comments, commentOffset, i)
    else
      Start(fromIndex) <= r < |s| && Visible(s, p, comments, commentOffset, r) &&
      forall i :: Start(fromIndex) <= i < r ==> !Visible(s, p, comments, commentOffset, i)
  }

  /**
   * For comments in file order, the comparator's signs along the comments
   * are -1 ... -1, 0 ... 0, 1 ... 1 for every position, which is what the
   * binary search needs; and 0 means the position is inside that comment.
   */
  lemma CommentComparatorOrdered(cs: seq<Comment>, commentOffset: int, pos: int, c: (Comment, int) -> int)
    requires InFileOrder(cs)
    requires forall a: Comment, b: int :: c(a, b) == CompareCommentTo(commentOffset, a, b)
    ensures SignOrdered(cs, pos, c)
    ensures forall k :: 0 <= k < |cs| ==> (c(cs[k], pos) == 0 <==> Covers(cs[k], commentOffset, pos))
  {
  }

  /**
   * indexOf(s, p, fromIndex, comments, commentOffset): with no comments (a
   * null array) it is the plain search; otherwise it repeats the plain
   * search, from one past the last hit, while the hit lies inside a comment.
   */
  method IndexOfOutsideComments(s: string, p: char -> bool, fromIndex: int,
                                comments: Option<seq<Comment>>, commentOffset: int) returns (r: int)
    requires comments.Some? ==> InFileOrder(comments.value)
    ensures IsFirstVisible(s, p, fromIndex, comments, commentOffset, r)
    ensures comments.None? ==> IsFirstMatch(s, p, fromIndex, r)
  {
    if comments.None? {
      r := IndexOf(s, p, fromIndex);
      return;
    }
    var cs := comments.value;
    var comparator := (a: Comment, b: int) => CompareCommentTo(commentOffset, a, b);
    var from := fromIndex;
    while true
      invariant Start(fromIndex) <= Start(from)
      invariant forall i :: Start(fromIndex) <= i < Start(from) && i < |s| ==> !Visible(s, p, comments, commentOffset, i)
      decreases |s| - Start(from)
    {
      var pos := IndexOf(s, p, from);
      if pos < 0 {
        return pos;
      }
      CommentComparatorOrdered(cs, commentOffset, pos, comparator);
      var commentPos := BinarySearch(cs, pos, comparator);
      if commentPos < 0 {
        return pos;
      }
      assert Covers(cs[commentPos], commentOffset, pos);
      from := pos + 1;
    }
  }

  // ---------------------------------------------------------------------
  // binarySearch

  /**
   * Along `a`, the signs of the comparisons with `key` never go down: every
   * element that compares below the key comes before every element that
   * does not, and every element that compares above it after every element
   * that does not.
   */
  ghost predicate SignOrdered<T, U>(a: seq<T>, key: U, c: (T, U) -> int)
  {
    forall i, j :: 0 <= i < j < |a| ==>
      (c(a[j], key) < 0 ==> c(a[i], key) < 0) && (c(a[i], key) > 0 ==> c(a[j], key) > 0)
  }

  /**
   * binarySearch(a, key, c): an index whose element compares equal to the
   * key, or -(low) - 1 where `low` is the insertion point.
   */
  method BinarySearch<T, U>(a: seq<T>, key: U, c: (T, U) -> int) returns (r: int)
    ensures r >= 0 ==> r < |a| && c(a[r], key) == 0
    ensures r < 0 ==> 0 <= -r - 1 <= |a|
    ensures r < 0 && SignOrdered(a, key, c) ==>
              (forall i :: 0 <= i < -r - 1 ==> c(a[i], key) < 0) &&
              (forall i :: -r - 1 <= i < |a| ==> c(a[i], key) > 0)
  {
    var low := 0;
    var high := |a| - 1;
    var mid := 0;
    while low <= high
      invariant 0 <= low <= high + 1 <= |a|
      invariant SignOrdered(a, key, c) ==> forall i :: 0 <= i < low ==> c(a[i], key) < 0
      invariant SignOrdered(a, key, c) ==> forall i :: high < i < |a| ==> c(a[i], key) > 0
    {
      mid := (high + low) / 2;
      var res := c(a[mid], key);
      if res == 0 {
        return mid;
      } else if res > 0 {
        high := mid - 1;
      } else {
        low := mid + 1;
      }
    }
    return -low - 1;
  }

  // ---------------------------------------------------------------------
  // removeQualifier

  /**
   * The types of the syntax tree as far as removeQualifier can tell them
   * apart: a qualifier type (const and/or volatile) wrapping another type,
   * a pointer type, or any other type.
   */
  datatype CType =
    | Qualifier(isConst: bool, isVolatile: bool, inner: CType)
    | Pointer(target: CType)
    | Other(name: string)

  /** `u` is reached from `t` by removing outer qualifier wrappers only. */
  ghost predicate StripsTo(t: CType, u: CType)
    decreases t
  {
    t == u || (t.Qualifier? && StripsTo(t.inner, u))
  }

  lemma {:induction false} StripsToInner(t: CType, u: CType)
    requires StripsTo(t, u) && u.Qualifier?
    ensures StripsTo(t, u.inner)
    decreases t
  {
    if t != u {
      StripsToInner(t.inner, u);
    }
  }

  /** removeQualifier: unwrap qualifier types until the type is not one. */
  method RemoveQualifier(t: CType) returns (r: CType)
    ensures !r.Qualifier?
    ensures StripsTo(t, r)
  {
    r := t;
    while r.Qualifier?
      invariant StripsTo(t, r)
      decreases r
    {
      StripsToInner(t, r);
      r := r.inner;
    }
  }

  /** There is only one unqualified type reached by stripping: the result is determined. */
  lemma {:induction false} StrippedTypeUnique(t: CType, r1: CType, r2: CType)
    requires StripsTo(t, r1) && !r1.Qualifier?
    requires StripsTo(t, r2) && !r2.Qualifier?
    ensures r1 == r2
    decreases t
  {
    if t != r1 && t != r2 {
      StrippedTypeUnique(t.inner, r1, r2);
    }
  }
}
