/** What the fields of a buffer are, read off its bytes: the pieces between separators,
    the tag and value of each, and which one counts when a tag occurs twice. */
module FixFields {
  import opened ByteStrings
  import opened FixWire
  import opened FixTheorems

  // ---------------------------------------------------------------------
  // Numerals
  // ---------------------------------------------------------------------

  /** The number that digits denote behind others that denote `sofar`. */
  function Denotes(digits: Bytes, sofar: int): int {
    if digits == [] then sofar else Denotes(digits[1..], 10 * sofar + digits[0] - 48)
  }

  function BehindPlus(text: Bytes): Bytes {
    if text != [] && text[0] == 43 then text[1..] else text
  }

  /** A plus sign or none, and then one or more of the digits 0 to 9 denoting `n`. */
  predicate Reads(text: Bytes, n: int) {
    var digits := BehindPlus(text);
    digits != [] && (forall i :: 0 <= i < |digits| ==> 48 <= digits[i] <= 57) && Denotes(digits, 0) == n
  }

  lemma {:induction false} DenotesSnoc(digits: Bytes, d: Byte, sofar: int)
    ensures Denotes(digits + [d], sofar) == 10 * Denotes(digits, sofar) + d - 48
  {
    if digits == [] {
      assert [d][1..] == [] && digits + [d] == [d];
    } else {
      assert (digits + [d])[1..] == digits[1..] + [d];
      DenotesSnoc(digits[1..], d, 10 * sofar + digits[0] - 48);
    }
  }

  lemma {:induction false} DenotesValue(digits: Bytes)
    requires AllDigits(digits)
    ensures Denotes(digits, 0) == Value(digits)
  {
    if digits != [] {
      var front, d := digits[..|digits| - 1], digits[|digits| - 1];
      DenotesValue(front);
      DenotesSnoc(front, d, 0);
      assert front + [d] == digits;
    }
  }

  lemma ReadsDigits(text: Bytes, n: int)
    requires Reads(text, n)
    ensures AllDigits(BehindPlus(text))
  {}

  lemma {:induction false} ParsesWhatReads(text: Bytes, max: nat)
    ensures match ParseUnsigned(text, max)
      case Some(n) => Reads(text, n)
      case None => forall n :: 0 <= n <= max ==> !Reads(text, n)
  {
    var digits := BehindPlus(text);
    if AllDigits(digits) {
      DenotesValue(digits);
    } else {
      forall n ensures !Reads(text, n) {
        if Reads(text, n) { ReadsDigits(text, n); }
      }
    }
  }

  // ---------------------------------------------------------------------
  // Pieces
  // ---------------------------------------------------------------------

  /** Pieces with one separator between each two. */
  function Join(ps: seq<Bytes>): Bytes
    requires ps != []
  {
    if |ps| == 1 then ps[0] else ps[0] + ([1] + Join(ps[1..]))
  }

  predicate Plain(ps: seq<Bytes>) {
    ps != [] && forall i :: 0 <= i < |ps| ==> 1 !in ps[i]
  }

  /** Every buffer is such a list of pieces. */
  lemma {:induction false} Pieces(bytes: Bytes) returns (ps: seq<Bytes>)
    ensures Plain(ps) && Join(ps) == bytes
    decreases |bytes|
  {
    var k := IndexOf(bytes, 1);
    if k == |bytes| {
      ps := [bytes];
    } else {
      var rest := Pieces(bytes[k + 1..]);
      ps := [bytes[..k]] + rest;
      assert ps[1..] == rest && bytes == bytes[..k] + ([1] + bytes[k + 1..]);
    }
  }

  /** The piece is a tag, an equals sign and a value: the first equals sign counts, the
      tag is a number of 32 bits, and the whole is UTF-8. */
  ghost predicate IsField(p: Bytes, t: int, v: Bytes) {
    Utf8(p) && 0 <= t <= 0xffff_ffff && exists tag: Bytes :: p == tag + [61] + v && 61 !in tag && Reads(tag, t)
  }

  predicate IsMalformed(p: Bytes) {
    p != [] && (!Utf8(p) || 61 !in p)
  }

  ghost predicate IsReadable(p: Bytes) {
    p == [] || exists t, v :: IsField(p, t, v)
  }

  /** There is one way to cut a piece at its first equals sign. */
  lemma FirstEquals(p: Bytes, k: nat, tag: Bytes, v: Bytes)
    requires k < |p| && p[k] == 61 && 61 !in p[..k] && p == tag + [61] + v && 61 !in tag
    ensures tag == p[..k] && v == p[k + 1..]
  {
    assert p[|tag|] == 61;
    assert forall i :: 0 <= i < |tag| ==> p[i] == tag[i] && tag[i] != 61;
    assert forall i :: 0 <= i < k ==> p[i] == p[..k][i] && p[i] != 61;
    assert |tag| == k;
  }

  /** One piece is skipped if empty, recorded if it is a field, and otherwise an error:
      malformed if not UTF-8 or without equals sign, or else for its tag. */
  lemma {:induction false} PieceOutcome(p: Bytes, acc: Fields)
    ensures match ParseChunk(p, acc)
      case Ok(m) =>
        if p == [] then m == acc else exists t: U32, v: Text :: IsField(p, t, v) && m == acc[t := v]
      case Err(e) => !IsReadable(p) && e == if IsMalformed(p) then MalformedField else TagNotInteger
  {
    hide Utf8, ParseUnsigned, Reads;
    if p != [] && Utf8(p) {
      var k := IndexOf(p, 61);
      if k < |p| {
        var tag := ParseUnsigned(p[..k], U32_MAX);
        ParsesWhatReads(p[..k], U32_MAX);
        Utf8Cut(p, k);
        assert p == p[..k] + [61] + p[k + 1..] && 61 !in p[..k];
        if tag.Some? {
          assert IsField(p, tag.value, p[k + 1..]);
        } else {
          forall t, v ensures !IsField(p, t, v) {
            if IsField(p, t, v) {
              var text: Bytes :| p == text + [61] + v && 61 !in text && Reads(text, t);
              FirstEquals(p, k, text, v);
            }
          }
        }
      } else {
        forall t, v ensures !IsField(p, t, v) {
          assert forall text: Bytes :: p == text + [61] + v ==> p[|text|] == 61;
        }
      }
    }
  }

  lemma {:induction false} FieldIsUnique(p: Bytes, t: int, v: Bytes, t': int, v': Bytes)
    requires IsField(p, t, v) && IsField(p, t', v')
    ensures t == t' && v == v'
  {
    hide Utf8, Reads;
    var a: Bytes :| p == a + [61] + v && 61 !in a && Reads(a, t);
    var b: Bytes :| p == b + [61] + v' && 61 !in b && Reads(b, t');
    assert p[..|a|] == a && p[|a|] == 61;
    FirstEquals(p, |a|, b, v');
    assert p[|a| + 1..] == v;
    ReadsOne(a, t, t');
  }

  lemma ReadsOne(text: Bytes, n: int, m: int)
    requires Reads(text, n) && Reads(text, m)
    ensures n == m
  {}

  // ---------------------------------------------------------------------
  // The fields of a buffer
  // ---------------------------------------------------------------------

  /** Some piece has tag `t`. */
  ghost predicate Occurs(ps: seq<Bytes>, t: int) {
    exists i, v :: 0 <= i < |ps| && IsField(ps[i], t, v)
  }

  /** The last piece with tag `t` has value `v`. */
  ghost predicate LastIs(ps: seq<Bytes>, t: int, v: Bytes) {
    exists i :: 0 <= i < |ps| && IsField(ps[i], t, v) && !Occurs(ps[i + 1..], t)
  }

  /** The fields `m` are the pieces, each tag with its last value, on top of `acc`. */
  ghost predicate Holds(ps: seq<Bytes>, acc: Fields, m: Fields) {
    forall t: U32, v: Text ::
      (t in m && m[t] == v) <==> LastIs(ps, t, v) || (!Occurs(ps, t) && t in acc && acc[t] == v)
  }

  /** The first piece that is not readable, and what is wrong with it. */
  ghost predicate FirstError(ps: seq<Bytes>, e: FixError) {
    exists i :: 0 <= i < |ps| && !IsReadable(ps[i]) && (forall j :: 0 <= j < i ==> IsReadable(ps[j]))
                && e == if IsMalformed(ps[i]) then MalformedField else TagNotInteger
  }

  lemma {:induction false} JoinStart(ps: seq<Bytes>)
    requires Plain(ps)
    ensures IndexOf(Join(ps), SOH) == |ps[0]| && Join(ps)[..|ps[0]|] == ps[0]
    ensures if |ps| == 1 then Join(ps) == ps[0]
            else |ps[0]| < |Join(ps)| && Plain(ps[1..]) && Join(ps)[|ps[0]| + 1..] == Join(ps[1..])
  {
    IndexOfIs(Join(ps), SOH, |ps[0]|);
  }

  lemma OccursCons(p: Bytes, ps: seq<Bytes>, t: int)
    ensures Occurs([p] + ps, t) <==> Occurs(ps, t) || exists v :: IsField(p, t, v)
  {
    hide IsField;
    var all := [p] + ps;
    if i, v :| 0 <= i < |all| && IsField(all[i], t, v) {
      if i > 0 { assert IsField(ps[i - 1], t, v); }
    }
    if i, v :| 0 <= i < |ps| && IsField(ps[i], t, v) {
      assert all[i + 1] == ps[i];
    }
    if v :| IsField(p, t, v) {
      assert all[0] == p;
    }
  }

  lemma LastIsCons(p: Bytes, ps: seq<Bytes>, t: int, v: Bytes)
    ensures LastIs([p] + ps, t, v) <==> LastIs(ps, t, v) || (IsField(p, t, v) && !Occurs(ps, t))
  {
    hide IsField, Occurs;
    var all := [p] + ps;
    assert forall i :: 0 <= i < |ps| ==> all[i + 1] == ps[i] && all[i + 1 + 1..] == ps[i + 1..];
    assert all[0] == p && all[1..] == ps;
    if i :| 0 <= i < |all| && IsField(all[i], t, v) && !Occurs(all[i + 1..], t) {
      if i > 0 { assert IsField(ps[i - 1], t, v) && !Occurs(ps[i - 1 + 1..], t); }
    }
    if i :| 0 <= i < |ps| && IsField(ps[i], t, v) && !Occurs(ps[i + 1..], t) {
      assert IsField(all[i + 1], t, v) && !Occurs(all[i + 1 + 1..], t);
    }
  }

  /** Recording the first piece and then the rest is recording all. */
  lemma HoldsCons(p: Bytes, ps: seq<Bytes>, acc: Fields, mid: Fields, m: Fields)
    requires Holds(ps, mid, m)
    requires if p == [] then mid == acc else exists t: U32, v: Text :: IsField(p, t, v) && mid == acc[t := v]
    ensures Holds([p] + ps, acc, m)
  {
    hide IsField, Occurs, LastIs;
    forall t: U32, v: Text
      ensures (t in m && m[t] == v) <==> LastIs([p] + ps, t, v) || (!Occurs([p] + ps, t) && t in acc && acc[t] == v)
    {
      OccursCons(p, ps, t);
      LastIsCons(p, ps, t, v);
      if p == [] {
        forall u, w ensures !IsField(p, u, w) { NoEmptyField(u, w); }
      } else {
        var u: U32, w: Text :| IsField(p, u, w) && mid == acc[u := w];
        forall t', v' | IsField(p, t', v') ensures t' == u && v' == w { FieldIsUnique(p, u, w, t', v'); }
      }
    }
  }

  lemma NoEmptyField(t: int, v: Bytes)
    ensures !IsField([], t, v)
  {
    hide Utf8, Reads;
  }

  lemma NothingHolds(acc: Fields)
    ensures Holds([], acc, acc)
  {}

  /** What parsing the fields gives: if every piece is readable, each tag that occurs
      with its last value; otherwise the error of the first piece that is not. */
  lemma {:induction false} FieldsOutcome(ps: seq<Bytes>, acc: Fields)
    requires Plain(ps)
    ensures match ParseFields(Join(ps), acc)
      case Ok(m) => (forall i :: 0 <= i < |ps| ==> IsReadable(ps[i])) && Holds(ps, acc, m)
      case Err(e) => FirstError(ps, e)
    decreases |ps|
  {
    hide ParseFields, ParseChunk, IsField, Holds, IsMalformed;
    var r := ParseChunk(ps[0], acc);
    FirstChunk(Join(ps), acc);
    JoinStart(ps);
    PieceOutcome(ps[0], acc);
    assert [ps[0]] + ps[1..] == ps;
    if r.Ok? {
      if |ps| == 1 {
        NothingHolds(r.value);
        HoldsCons(ps[0], [], acc, r.value, r.value);
      } else {
        FieldsOutcome(ps[1..], r.value);
        var all := ParseFields(Join(ps[1..]), r.value);
        if all.Ok? {
          HoldsCons(ps[0], ps[1..], acc, r.value, all.value);
        } else {
          ErrorBehind(ps, all.error);
        }
      }
    }
  }

  lemma ErrorBehind(ps: seq<Bytes>, e: FixError)
    requires |ps| > 1 && IsReadable(ps[0]) && FirstError(ps[1..], e)
    ensures FirstError(ps, e)
  {
    hide IsReadable, IsMalformed;
    var rest := ps[1..];
    var i :| 0 <= i < |rest| && !IsReadable(rest[i]) && (forall j :: 0 <= j < i ==> IsReadable(rest[j]))
             && e == if IsMalformed(rest[i]) then MalformedField else TagNotInteger;
    assert ps[i + 1] == rest[i];
    forall j | 0 <= j < i + 1 ensures IsReadable(ps[j]) {
      if j > 0 { assert ps[j] == rest[j - 1]; }
    }
  }
}
