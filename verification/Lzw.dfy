/** The reference for GIF's variable-width LZW (appendix F of the GIF89a specification): a dictionary
    of whole strings. And what it takes for prefix and suffix tables to stand for that dictionary. */
module Lzw {
  import opened Wrappers
  import opened Arithmetic
  import opened DiskModel
  import opened BitStreams

  const TABLE: nat := 4096
  const MAX_WIDTH: nat := 12

  function ClearCode(min: nat): nat { Pow2(min) }
  function EndCode(min: nat): nat { Pow2(min) + 1 }

  /** The strings known so far by code, the width of the next code, and the string decoded last
      (empty after a clear). The two control codes have no string. */
  datatype Dictionary = Dictionary(strings: seq<seq<byte>>, width: nat, prev: seq<byte>)

  function Literals(n: nat): (s: seq<seq<byte>>)
    requires n <= 256
    ensures |s| == n && forall c :: 0 <= c < n ==> s[c] == [c as byte]
  {
    seq(n, c requires 0 <= c < n => [c as byte])
  }

  predicate GoodMin(min: nat) { 2 <= min <= 8 }

  lemma MinTable(min: nat)
    requires GoodMin(min)
    ensures 4 <= Pow2(min) <= 256
  {
    Pow2Monotone(2, min);
    Pow2Monotone(min, 8);
    Pow2Table();
    assert Pow2(2) == 4;
  }

  function Fresh(min: nat): Dictionary
    requires GoodMin(min)
  {
    MinTable(min);
    Dictionary(Literals(ClearCode(min)) + [[], []], min + 1, [])
  }

  /** The string of a code; one past the last known code means the previous string and its own first
      letter again. */
  function Meaning(d: Dictionary, c: nat): seq<byte>
    requires d.prev != []
  {
    if c < |d.strings| then d.strings[c] else d.prev + [d.prev[0]]
  }

  /** Learns the previous string extended by the first letter of `s`, while the table has room, and
      widens the codes when the next one needs it. */
  function Learn(d: Dictionary, s: seq<byte>): Dictionary
    requires d.prev != [] && s != []
  {
    if |d.strings| < TABLE then
      var strings := d.strings + [d.prev + [s[0]]];
      Dictionary(strings, if |strings| == Pow2(d.width) && d.width < MAX_WIDTH then d.width + 1 else d.width, s)
    else d.(prev := s)
  }

  /** What one code of a valid stream does: nothing more to come, a fresh dictionary, or a string. A
      stream with any other code is not valid. */
  datatype Event = Stop | Reset | Emit(s: seq<byte>, d: Dictionary) | Invalid

  function Interpret(d: Dictionary, min: nat, c: nat): Event {
    if c == EndCode(min) then Stop
    else if c == ClearCode(min) then Reset
    else if d.prev == [] then
      (if c < ClearCode(min) && c < 256 then Emit([c as byte], d.(prev := [c as byte])) else Invalid)
    else if c > |d.strings| || c >= TABLE then Invalid
    else
      var s := Meaning(d, c);
      if s == [] then Invalid else Emit(s, Learn(d, s))
  }

  function Min(a: nat, b: nat): nat { if a < b then a else b }

  /** The first `want` pixels of a valid stream of bits; nothing when the stream is not valid or ends
      too early. */
  function Decode(bits: seq<bool>, d: Dictionary, min: nat, want: nat): Option<seq<byte>>
    requires GoodMin(min)
    decreases |bits|
  {
    if want == 0 then Some([])
    else if d.width == 0 || |bits| < d.width then None
    else
      var rest := bits[d.width..];
      match Interpret(d, min, ToNat(bits[..d.width]))
      case Stop => Some([])
      case Reset => Decode(rest, Fresh(min), min, want)
      case Emit(s, d1) =>
        var k := Min(|s|, want);
        var tail := Decode(rest, d1, min, want - k);
        if tail.None? then None else Some(s[..k] + tail.value)
      case Invalid => None
  }

  // ------------------------------------------------------------------ tables for a dictionary

  /** `c` is a code that has a string: a literal or a learned code. */
  predicate HasString(d: Dictionary, min: nat, c: nat) {
    c < |d.strings| && c != ClearCode(min) && c != EndCode(min)
  }

  predicate EntryStands(prefix: seq<nat>, suffix: seq<byte>, d: Dictionary, min: nat, k: nat)
    requires k < |d.strings| && k < |prefix| && k < |suffix|
  {
    && prefix[k] < k && HasString(d, min, prefix[k])
    && d.strings[k] == d.strings[prefix[k]] + [suffix[k]]
  }

  /** A string is no longer than the number of codes learned before it allows. */
  predicate LengthOk(d: Dictionary, min: nat, c: nat)
    requires HasString(d, min, c)
  {
    1 <= |d.strings[c]| && (if c < ClearCode(min) then |d.strings[c]| == 1 else |d.strings[c]| + ClearCode(min) <= c)
  }

  /** The tables stand for the dictionary: every learned code is its prefix's string and its suffix,
      and prefixes point to smaller codes. */
  ghost predicate Stands(prefix: seq<nat>, suffix: seq<byte>, d: Dictionary, min: nat) {
    && GoodMin(min) && |prefix| == |suffix| == TABLE && EndCode(min) < |d.strings| <= TABLE
    && ClearCode(min) <= 256
    && (forall c: nat :: c < ClearCode(min) ==> d.strings[c] == [c as byte])
    && (forall k: nat {:trigger EntryStands(prefix, suffix, d, min, k)} :: EndCode(min) < k < |d.strings| ==>
         EntryStands(prefix, suffix, d, min, k))
    && (forall c: nat {:trigger LengthOk(d, min, c)} :: HasString(d, min, c) ==> LengthOk(d, min, c))
  }

  /** The previous code's string is the previous string. */
  predicate PrevStands(d: Dictionary, min: nat, old0: int) {
    if d.prev == [] then old0 == -1 else old0 >= 0 && HasString(d, min, old0) && d.strings[old0] == d.prev
  }

  /** A code that follows a string is a learned or a literal one, or the one about to be learned. */
  lemma CodeMeans(prefix: seq<nat>, suffix: seq<byte>, d: Dictionary, min: nat, old0: int, c: nat)
    requires Stands(prefix, suffix, d, min) && PrevStands(d, min, old0) && d.prev != []
    requires Interpret(d, min, c).Emit?
    ensures Interpret(d, min, c).s == Meaning(d, c) != []
    ensures HasString(d, min, c) || c == |d.strings| < TABLE
    ensures |Meaning(d, c)| <= TABLE
  {
    assert LengthOk(d, min, old0);
    assert c < |d.strings| && c != EndCode(min) ==> LengthOk(d, min, c);
  }

  /** Storing the previous code and the first letter of the new string keeps the tables in step. */
  lemma LearnStands(prefix: seq<nat>, suffix: seq<byte>, d: Dictionary, min: nat, old0: int, s: seq<byte>, c: nat)
    requires Stands(prefix, suffix, d, min) && PrevStands(d, min, old0) && d.prev != [] && s != []
    requires s == Meaning(d, c) && (HasString(d, min, c) || c == |d.strings| < TABLE)
    ensures var n := |d.strings|;
      if n < TABLE then
        Stands(prefix[n := old0], suffix[n := s[0]], Learn(d, s), min) && PrevStands(Learn(d, s), min, c)
      else Stands(prefix, suffix, Learn(d, s), min) && PrevStands(Learn(d, s), min, c)
  {
    var n := |d.strings|;
    if n < TABLE {
      var p1, s1, d1 := prefix[n := old0], suffix[n := s[0]], Learn(d, s);
      forall k: nat | EndCode(min) < k < |d1.strings|
        ensures EntryStands(p1, s1, d1, min, k)
      {
        if k < n { assert EntryStands(prefix, suffix, d, min, k); }
      }
      forall x: nat | HasString(d1, min, x)
        ensures LengthOk(d1, min, x)
      {
        if x < n { assert LengthOk(d, min, x); }
      }
      assert c < n ==> LengthOk(d, min, c);
      assert LengthOk(d, min, old0);
    } else {
      var d1 := Learn(d, s);
      forall k: nat | EndCode(min) < k < |d1.strings|
        ensures EntryStands(prefix, suffix, d1, min, k)
      {
        assert EntryStands(prefix, suffix, d, min, k);
      }
      forall x: nat | HasString(d1, min, x)
        ensures LengthOk(d1, min, x)
      {
        assert LengthOk(d, min, x);
      }
    }
  }

  lemma FreshStands(prefix: seq<nat>, suffix: seq<byte>, min: nat)
    requires GoodMin(min) && |prefix| == |suffix| == TABLE
    ensures Stands(prefix, suffix, Fresh(min), min) && PrevStands(Fresh(min), min, -1)
    ensures |Fresh(min).strings| == EndCode(min) + 1
  {
    MinTable(min);
  }

  /** A literal after a clear only sets the previous string. */
  lemma LiteralStands(prefix: seq<nat>, suffix: seq<byte>, d: Dictionary, min: nat, c: nat)
    requires Stands(prefix, suffix, d, min) && c < ClearCode(min)
    ensures Stands(prefix, suffix, d.(prev := [c as byte]), min) && PrevStands(d.(prev := [c as byte]), min, c)
  {
    var d1 := d.(prev := [c as byte]);
    forall k: nat | EndCode(min) < k < |d1.strings|
      ensures EntryStands(prefix, suffix, d1, min, k)
    {
      assert EntryStands(prefix, suffix, d, min, k);
    }
    forall x: nat | HasString(d1, min, x)
      ensures LengthOk(d1, min, x)
    {
      assert LengthOk(d, min, x);
    }
  }

  // ------------------------------------------------------------------ the stack

  function Reverse(s: seq<byte>): (r: seq<byte>)
    ensures |r| == |s|
  {
    if s == [] then [] else Reverse(s[1..]) + [s[0]]
  }

  /** What is on top of the stack comes out first. */
  lemma {:induction false} ReverseSnoc(s: seq<byte>, x: byte)
    ensures Reverse(s + [x]) == [x] + Reverse(s)
  {
    if s == [] {
      assert [x][1..] == [];
    } else {
      assert (s + [x])[1..] == s[1..] + [x];
      ReverseSnoc(s[1..], x);
    }
  }

  lemma {:induction false} ReverseSplit(s: seq<byte>, k: nat)
    requires k <= |s|
    ensures Reverse(s) == Reverse(s[k..]) + Reverse(s[..k])
    decreases |s|
  {
    if k == 0 {
      assert s[0..] == s && s[..0] == [];
    } else {
      ReverseSplit(s[1..], k - 1);
      assert s[1..][k - 1..] == s[k..] && s[1..][..k - 1] == s[..k][1..];
    }
  }
}
