// UTF-8 as the Redfish printer reads it: the byte sequences of section 4 of RFC 3629, the scalar
// value each of them encodes, and the table-driven automaton that recognises them.
module Utf8 {

  type byte = b: int | 0 <= b < 256

  // ---------------------------------------------------------------------------------------------
  // The grammar of section 4 of RFC 3629, and the scalar values of its section 3.

  predicate IsTail(b: byte) { 0x80 <= b <= 0xBF }

  predicate IsSecondOfThree(lead: byte, b: byte) {
    || (lead == 0xE0 && 0xA0 <= b <= 0xBF)
    || (0xE1 <= lead <= 0xEC && IsTail(b))
    || (lead == 0xED && 0x80 <= b <= 0x9F)
    || (0xEE <= lead <= 0xEF && IsTail(b))
  }

  predicate IsSecondOfFour(lead: byte, b: byte) {
    || (lead == 0xF0 && 0x90 <= b <= 0xBF)
    || (0xF1 <= lead <= 0xF3 && IsTail(b))
    || (lead == 0xF4 && 0x80 <= b <= 0x8F)
  }

  /** A byte string starts with a character of n bytes. */
  predicate StartsWithChar(s: seq<byte>, n: nat) {
    n <= |s| &&
    (|| (n == 1 && s[0] <= 0x7F)
     || (n == 2 && 0xC2 <= s[0] <= 0xDF && IsTail(s[1]))
     || (n == 3 && IsSecondOfThree(s[0], s[1]) && IsTail(s[2]))
     || (n == 4 && IsSecondOfFour(s[0], s[1]) && IsTail(s[2]) && IsTail(s[3])))
  }

  /** The bytes of exactly one character. */
  predicate IsChar(s: seq<byte>) { StartsWithChar(s, |s|) }

  /** The six bits a trailing byte carries. */
  function Six(b: byte): int { b as int - 0x80 }

  /** The bits a lead byte carries above its marker. */
  function Lead(b: byte, marker: int): int { b as int - marker }

  /** A Unicode scalar value: a code point that is no surrogate. */
  type scalar = cp: int | 0 <= cp < 0xD800 || 0xDFFF < cp <= 0x10FFFF

  /** The scalar value that a character encodes. */
  function ScalarOf(s: seq<byte>): scalar
    requires IsChar(s)
  {
    if |s| == 1 then s[0]
    else if |s| == 2 then Lead(s[0], 0xC0) * 64 + Six(s[1])
    else if |s| == 3 then (Lead(s[0], 0xE0) * 64 + Six(s[1])) * 64 + Six(s[2])
    else ((Lead(s[0], 0xF0) * 64 + Six(s[1])) * 64 + Six(s[2])) * 64 + Six(s[3])
  }

  /** The character that encodes a scalar value. */
  function Encode(cp: scalar): seq<byte>
  {
    if cp < 0x80 then [cp]
    else if cp < 0x800 then [0xC0 + cp / 64, 0x80 + cp % 64]
    else if cp < 0x10000 then [0xE0 + cp / 64 / 64, 0x80 + cp / 64 % 64, 0x80 + cp % 64]
    else [0xF0 + cp / 64 / 64 / 64, 0x80 + cp / 64 / 64 % 64, 0x80 + cp / 64 % 64, 0x80 + cp % 64]
  }

  lemma EncodeIsChar(cp: scalar)
    ensures IsChar(Encode(cp)) && ScalarOf(Encode(cp)) == cp
  {
    var x := cp / 64;
    var y := x / 64;
    if cp < 0x800 {
    } else if cp < 0x10000 {
      assert Encode(cp) == [0xE0 + y, 0x80 + x % 64, 0x80 + cp % 64];
    } else {
      assert Encode(cp) == [0xF0 + y / 64, 0x80 + y % 64, 0x80 + x % 64, 0x80 + cp % 64];
    }
  }

  lemma SplitSix(high: nat, low: nat)
    requires low < 64
    ensures (high * 64 + low) / 64 == high && (high * 64 + low) % 64 == low
  {
  }

  lemma EncodeInvertsScalarOf(s: seq<byte>)
    requires IsChar(s)
    ensures Encode(ScalarOf(s)) == s
  {
    if |s| == 2 {
      SplitSix(Lead(s[0], 0xC0), Six(s[1]));
    } else if |s| == 3 {
      var high := Lead(s[0], 0xE0) * 64 + Six(s[1]);
      SplitSix(Lead(s[0], 0xE0), Six(s[1]));
      SplitSix(high, Six(s[2]));
    } else if |s| == 4 {
      var top := Lead(s[0], 0xF0) * 64 + Six(s[1]);
      SplitSix(Lead(s[0], 0xF0), Six(s[1]));
      SplitSix(top, Six(s[2]));
      SplitSix(top * 64 + Six(s[2]), Six(s[3]));
    }
  }

  /** The length of the character a byte string starts with; 0 when it starts with none. */
  function CharLength(s: seq<byte>): (n: nat)
    ensures n <= |s| && (n > 0 ==> IsChar(s[..n]))
  {
    if StartsWithChar(s, 1) then 1
    else if StartsWithChar(s, 2) then 2
    else if StartsWithChar(s, 3) then 3
    else if StartsWithChar(s, 4) then 4
    else 0
  }

  /** A concatenation of characters. */
  predicate WellFormed(s: seq<byte>)
    decreases |s|
  {
    s == [] || (CharLength(s) > 0 && WellFormed(s[CharLength(s)..]))
  }

  /** The scalar values of a well-formed byte string. */
  function Scalars(s: seq<byte>): seq<scalar>
    requires WellFormed(s)
    decreases |s|
  {
    if s == [] then [] else [ScalarOf(s[..CharLength(s)])] + Scalars(s[CharLength(s)..])
  }

  /** The byte string of a list of scalar values. */
  function EncodeAll(cps: seq<scalar>): seq<byte>
  {
    if cps == [] then [] else Encode(cps[0]) + EncodeAll(cps[1..])
  }

  lemma FirstScalar(s: seq<byte>) returns (c: seq<byte>, rest: seq<byte>)
    requires WellFormed(s) && s != []
    ensures s == c + rest && IsChar(c) && WellFormed(rest) && |rest| < |s|
    ensures Scalars(s) == [ScalarOf(c)] + Scalars(rest)
  {
    c, rest := s[..CharLength(s)], s[CharLength(s)..];
  }

  lemma EncodeAllInFront(cp: scalar, cps: seq<scalar>)
    ensures EncodeAll([cp] + cps) == Encode(cp) + EncodeAll(cps)
  {
    assert ([cp] + cps)[1..] == cps;
  }

  lemma {:induction false} EncodeAllInvertsScalars(s: seq<byte>)
    requires WellFormed(s)
    ensures EncodeAll(Scalars(s)) == s
    decreases |s|
  {
    if s != [] {
      var c, rest := FirstScalar(s);
      EncodeInvertsScalarOf(c);
      EncodeAllInvertsScalars(rest);
      EncodeAllInFront(ScalarOf(c), Scalars(rest));
    }
  }

  /** No character is a proper prefix of another. */
  lemma CharLengthOfChar(c: seq<byte>, rest: seq<byte>)
    requires IsChar(c)
    ensures CharLength(c + rest) == |c|
  {
    var s := c + rest;
    assert s[..|c|] == c;
    assert forall k | 0 <= k < |c| :: s[k] == c[k];
  }

  lemma {:induction false} ScalarsInvertEncodeAll(cps: seq<scalar>)
    ensures WellFormed(EncodeAll(cps)) && Scalars(EncodeAll(cps)) == cps
  {
    if cps != [] {
      var c, rest := Encode(cps[0]), EncodeAll(cps[1..]);
      EncodeIsChar(cps[0]);
      CharLengthOfChar(c, rest);
      ScalarsInvertEncodeAll(cps[1..]);
      assert (c + rest)[..|c|] == c && (c + rest)[|c|..] == rest;
    }
  }

  // ---------------------------------------------------------------------------------------------
  // Unfinished characters.

  /** The first bytes of some character, but not all of them. */
  ghost predicate IsInitial(s: seq<byte>) {
    s != [] && exists t: seq<byte> :: t != [] && IsChar(s + t)
  }

  /** A byte string starts with n bytes of an unfinished character. */
  predicate StartsPending(s: seq<byte>, n: nat) {
    n <= |s| &&
    (|| n == 0
     || (n == 1 && (0xC2 <= s[0] <= 0xF4))
     || (n == 2 && (IsSecondOfThree(s[0], s[1]) || IsSecondOfFour(s[0], s[1])))
     || (n == 3 && IsSecondOfFour(s[0], s[1]) && IsTail(s[2])))
  }

  /** Nothing, or the bytes of an unfinished character. */
  predicate Pending(s: seq<byte>) { StartsPending(s, |s|) }

  lemma PendingIsInitial(s: seq<byte>)
    ensures Pending(s) <==> s == [] || IsInitial(s)
  {
    if Pending(s) && s != [] {
      var second := if s[0] == 0xE0 then 0xA0 else if s[0] == 0xF0 then 0x90 else 0x80;
      var t: seq<byte> :=
        if |s| == 3 then [0x80]
        else if |s| == 2 then (if s[0] < 0xF0 then [0x80] else [0x80, 0x80])
        else if s[0] < 0xE0 then [0x80]
        else if s[0] < 0xF0 then [second, 0x80]
        else [second, 0x80, 0x80];
      assert IsChar(s + t);
    }
  }

  // ---------------------------------------------------------------------------------------------
  // The automaton.

  const ACCEPT := 0
  const REJECT := 1

  /** The first 256 entries of the table: the class of a byte. */
  function ByteClass(b: byte): (c: nat)
    ensures c < 12
  {
    if b <= 0x7F then 0
    else if b <= 0x8F then 1
    else if b <= 0x9F then 9
    else if b <= 0xBF then 7
    else if b <= 0xC1 then 8
    else if b <= 0xDF then 2
    else if b == 0xE0 then 0xA
    else if b <= 0xEC then 3
    else if b == 0xED then 4
    else if b <= 0xEF then 3
    else if b == 0xF0 then 0xB
    else if b <= 0xF3 then 6
    else if b == 0xF4 then 5
    else 8
  }

  /** The remaining entries: for each state the next state by byte class. */
  const TRANSITIONS: seq<seq<nat>> := [
    [0, 1, 2, 3, 5, 8, 7, 1, 1, 1, 4, 6, 1, 1, 1, 1],
    [1, 1, 1, 1, 1, 1, 1, 1, 1, 1, 1, 1, 1, 1, 1, 1],
    [1, 0, 1, 1, 1, 1, 1, 0, 1, 0, 1, 1, 1, 1, 1, 1],
    [1, 2, 1, 1, 1, 1, 1, 2, 1, 2, 1, 1, 1, 1, 1, 1],
    [1, 1, 1, 1, 1, 1, 1, 2, 1, 1, 1, 1, 1, 1, 1, 1],
    [1, 2, 1, 1, 1, 1, 1, 1, 1, 2, 1, 1, 1, 1, 1, 1],
    [1, 1, 1, 1, 1, 1, 1, 3, 1, 3, 1, 1, 1, 1, 1, 1],
    [1, 3, 1, 1, 1, 1, 1, 3, 1, 3, 1, 1, 1, 1, 1, 1],
    [1, 3, 1, 1, 1, 1, 1, 1, 1, 1, 1, 1, 1, 1, 1, 1]
  ]

  function NextState(state: nat, b: byte): nat
  {
    if state > 8 then state else TRANSITIONS[state][ByteClass(b)]
  }

  /** What `0xff >> type` keeps of a byte, as one more than the mask. */
  const LEAD_MASK: seq<nat> := [256, 128, 64, 32, 16, 8, 4, 2, 1, 1, 1, 1]

  /** Six more bits into a 32-bit code point, or the bits of a lead byte. */
  function NextCodePoint(state: nat, codePoint: nat, b: byte): nat {
    if state > 8 then codePoint
    else if state != ACCEPT then b % 64 + codePoint * 64 % 0x1_0000_0000
    else b % LEAD_MASK[ByteClass(b)]
  }

  /** One call of the decoder: state and code point are updated together. */
  method Decode(state: nat, codePoint: nat, b: byte) returns (state': nat, codePoint': nat)
    ensures state' == NextState(state, b)
    ensures codePoint' == NextCodePoint(state, codePoint, b)
  {
    if state > 0x8 {
      return state, codePoint;
    }
    var kind := ByteClass(b);
    codePoint' := if state != ACCEPT then b % 64 + codePoint * 64 % 0x1_0000_0000
                  else b % LEAD_MASK[kind];
    state' := TRANSITIONS[state][kind];
  }

  /** The state an unfinished character leaves the automaton in. */
  function StateOf(s: seq<byte>): nat
    requires Pending(s)
  {
    if s == [] then 0
    else if |s| == 1 then
      if s[0] <= 0xDF then 2
      else if s[0] == 0xE0 then 4
      else if s[0] == 0xED then 5
      else if s[0] <= 0xEF then 3
      else if s[0] == 0xF0 then 6
      else if s[0] <= 0xF3 then 7
      else 8
    else if |s| == 2 then if s[0] <= 0xEF then 2 else 3
    else 2
  }

  /** The code point collected from an unfinished character. */
  function PartialOf(s: seq<byte>): nat
    requires Pending(s) && s != []
  {
    var lead := Lead(s[0], if s[0] <= 0xDF then 0xC0 else if s[0] <= 0xEF then 0xE0 else 0xF0);
    if |s| == 1 then lead
    else if |s| == 2 then lead * 64 + Six(s[1])
    else (lead * 64 + Six(s[1])) * 64 + Six(s[2])
  }

  /** One step of the automaton, read against the grammar: after an unfinished character the next
      byte finishes it, extends it, or can belong to no character that starts that way. */
  lemma Step(s: seq<byte>, codePoint: nat, b: byte)
    requires Pending(s)
    requires s != [] ==> codePoint == PartialOf(s)
    ensures NextState(StateOf(s), b) == ACCEPT <==> IsChar(s + [b])
    ensures NextState(StateOf(s), b) == REJECT <==> !IsChar(s + [b]) && !Pending(s + [b])
    ensures IsChar(s + [b]) ==> NextCodePoint(StateOf(s), codePoint, b) == ScalarOf(s + [b])
    ensures Pending(s + [b]) ==>
              && NextState(StateOf(s), b) == StateOf(s + [b])
              && NextCodePoint(StateOf(s), codePoint, b) == PartialOf(s + [b])
  {
    StepState(s, b);
    if s == [] {
      assert s + [b] == [b];
      FirstByte(b);
    } else {
      LaterByte(s, b);
      MoreBits(PartialOf(s), b);
    }
  }

  lemma FirstByte(b: byte)
    ensures IsChar([b]) ==> NextCodePoint(ACCEPT, 0, b) == b
    ensures Pending([b]) ==> NextCodePoint(ACCEPT, 0, b) == PartialOf([b])
  {
  }

  /** Six more bits always fit. */
  lemma MoreBits(codePoint: nat, b: byte)
    requires codePoint < 0x40000
    ensures IsTail(b) ==> b % 64 + codePoint * 64 % 0x1_0000_0000 == codePoint * 64 + Six(b)
  {
  }

  lemma LaterByte(s: seq<byte>, b: byte)
    requires Pending(s) && s != []
    ensures PartialOf(s) < 0x40000 && 0 < StateOf(s) <= 8
    ensures IsChar(s + [b]) || Pending(s + [b]) ==> IsTail(b)
    ensures IsChar(s + [b]) ==> ScalarOf(s + [b]) == PartialOf(s) * 64 + Six(b)
    ensures Pending(s + [b]) ==> PartialOf(s + [b]) == PartialOf(s) * 64 + Six(b)
  {
  }

  lemma StepState(s: seq<byte>, b: byte)
    requires Pending(s)
    ensures NextState(StateOf(s), b) == ACCEPT <==> IsChar(s + [b])
    ensures NextState(StateOf(s), b) == REJECT <==> !IsChar(s + [b]) && !Pending(s + [b])
    ensures Pending(s + [b]) ==> NextState(StateOf(s), b) == StateOf(s + [b])
  {
    var kind := ByteClass(b);
    var row := TRANSITIONS[StateOf(s)];
    if s == [] {
      assert s + [b] == [b];
    } else if |s| == 1 {
      assert s + [b] == [s[0], b];
    } else if |s| == 2 {
      assert s + [b] == [s[0], s[1], b];
    } else {
      assert s + [b] == [s[0], s[1], s[2], b];
    }
  }

  /** The automaton over a whole byte string, with no restart after a rejection. */
  function Run(state: nat, s: seq<byte>): nat
    decreases |s|
  {
    if s == [] then state else Run(NextState(state, s[0]), s[1..])
  }

  lemma {:induction false} RejectIsFinal(s: seq<byte>)
    ensures Run(REJECT, s) == REJECT
  {
    if s != [] {
      assert TRANSITIONS[REJECT][ByteClass(s[0])] == REJECT;
      RejectIsFinal(s[1..]);
    }
  }

  /** A byte string is read to the accepting state exactly when it is a concatenation of the
      characters of section 4 of RFC 3629. */
  lemma AcceptsExactlyWellFormed(s: seq<byte>)
    ensures Run(ACCEPT, s) == ACCEPT <==> WellFormed(s)
  {
    RunFromPending([], s);
    assert [] + s == s;
  }

  lemma {:induction false} RunFromPending(p: seq<byte>, s: seq<byte>)
    requires Pending(p)
    ensures Run(StateOf(p), s) == ACCEPT <==> WellFormed(p + s)
    decreases |s|
  {
    if s == [] {
      assert p + s == p;
      PendingHasNoChar(p, []);
    } else {
      var q := p + [s[0]];
      StepState(p, s[0]);
      assert p + s == q + s[1..];
      if IsChar(q) {
        CharLengthOfChar(q, s[1..]);
        assert (q + s[1..])[|q|..] == s[1..];
        RunFromPending([], s[1..]);
        assert [] + s[1..] == s[1..];
      } else if Pending(q) {
        RunFromPending(q, s[1..]);
      } else {
        RejectIsFinal(s[1..]);
        DeadHasNoChar(p, s[0], s[1..]);
      }
    }
  }

  /** An unfinished character on its own starts with no character. */
  lemma PendingHasNoChar(p: seq<byte>, rest: seq<byte>)
    requires Pending(p) && rest == []
    ensures CharLength(p + rest) == 0
  {
    assert p + rest == p;
  }

  /** Once a byte fits no character that starts like this, no character starts here. */
  lemma DeadHasNoChar(p: seq<byte>, b: byte, rest: seq<byte>)
    requires Pending(p) && !Pending(p + [b]) && !IsChar(p + [b])
    ensures CharLength(p + [b] + rest) == 0
  {
    var s := p + [b] + rest;
    var q := p + [b];
    assert forall k | 0 <= k < |q| :: s[k] == q[k];
  }

  /** The code points held at the moments the automaton is back in its accepting state. */
  function Accepted(state: nat, codePoint: nat, s: seq<byte>): seq<nat>
    decreases |s|
  {
    if s == [] then []
    else
      var state', codePoint' := NextState(state, s[0]), NextCodePoint(state, codePoint, s[0]);
      (if state' == ACCEPT then [codePoint'] else []) + Accepted(state', codePoint', s[1..])
  }

  /** On well-formed input these are the encoded scalar values, one for each character, whatever
      the code point was before the first byte. */
  lemma AcceptedAreScalars(codePoint: nat, s: seq<byte>)
    requires WellFormed(s)
    ensures Accepted(ACCEPT, codePoint, s) == Scalars(s)
  {
    assert [] + s == s;
    AcceptedFromPending([], codePoint, s);
  }

  lemma ScalarsInFront(c: seq<byte>, rest: seq<byte>)
    requires IsChar(c) && WellFormed(c + rest)
    ensures WellFormed(rest) && Scalars(c + rest) == [ScalarOf(c)] + Scalars(rest)
  {
    CharLengthOfChar(c, rest);
    assert (c + rest)[|c|..] == rest && (c + rest)[..|c|] == c;
  }

  lemma {:induction false} AcceptedFromPending(p: seq<byte>, codePoint: nat, s: seq<byte>)
    requires Pending(p) && WellFormed(p + s)
    requires p != [] ==> codePoint == PartialOf(p)
    ensures Accepted(StateOf(p), codePoint, s) == Scalars(p + s)
    decreases |s|
  {
    if s == [] {
      PendingHasNoChar(p, []);
      assert p + s == p;
    } else {
      var q := p + [s[0]];
      var codePoint' := NextCodePoint(StateOf(p), codePoint, s[0]);
      Step(p, codePoint, s[0]);
      assert p + s == q + s[1..];
      if IsChar(q) {
        ScalarsInFront(q, s[1..]);
        assert [] + s[1..] == s[1..];
        AcceptedFromPending([], codePoint', s[1..]);
      } else if Pending(q) {
        AcceptedFromPending(q, codePoint', s[1..]);
      } else {
        DeadHasNoChar(p, s[0], s[1..]);
        assert false;
      }
    }
  }
}
