/**
 * The buffered SHA-256 of src/base/hash_libtomcrypt.cpp. Words are integers; `length` is a
 * 64-bit counter whose wrap-around is written out.
 */
module Sha256Rounds {
  import opened Base
  import opened Words
  import opened BlockIteration
  import opened Sha256Spec

  // ---------------------------------------------------------------- the bit functions of the code

  function FastCh(x: word, y: word, z: word): word {
    Xor(z, And(x, Xor(y, z)))
  }

  function FastMaj(x: word, y: word, z: word): word {
    Or(And(Or(x, y), z), And(x, y))
  }

  // The choice by a word x, in the form of the code and, n being its complement, of the standard.
  predicate SameChoice(x: nat, y: nat, z: nat, n: nat) {
    XorBits(z, AndBits(x, XorBits(y, z))) == XorBits(AndBits(x, y), AndBits(n, z))
  }

  lemma {:induction false} ChBits(x: nat, y: nat, z: nat, k: nat)
    requires x < Power(2, k) && y < Power(2, k) && z < Power(2, k)
    ensures SameChoice(x, y, z, Power(2, k) - 1 - x)
    decreases k
  {
    if k > 0 {
      hide Power, SameChoice;
      NotHalves(x, k);
      NotHalves(y, k);
      NotHalves(z, k);
      ChBits(x / 2, y / 2, z / 2, k - 1);
      ChStep(x, y, z, Power(2, k) - 1 - x);
    }
  }

  lemma ChStep(x: nat, y: nat, z: nat, n: nat)
    requires n % 2 == 1 - x % 2 && SameChoice(x / 2, y / 2, z / 2, n / 2)
    ensures SameChoice(x, y, z, n)
  {
    hide AndBits, XorBits;
    ChHalves(x, y, z, n);
    ChLow(x, y, z, n);
    SameNumber(XorBits(z, AndBits(x, XorBits(y, z))), XorBits(AndBits(x, y), AndBits(n, z)));
  }

  lemma NotHalves(x: nat, k: nat)
    requires k > 0 && x < Power(2, k)
    ensures x / 2 < Power(2, k - 1)
    ensures (Power(2, k) - 1 - x) / 2 == Power(2, k - 1) - 1 - x / 2 && (Power(2, k) - 1 - x) % 2 == 1 - x % 2
  {
  }

  lemma SameNumber(a: nat, b: nat)
    requires a / 2 == b / 2 && a % 2 == b % 2
    ensures a == b
  {
  }

  // The higher bits of both forms.
  lemma ChHalves(x: nat, y: nat, z: nat, n: nat)
    ensures XorBits(z, AndBits(x, XorBits(y, z))) / 2 == XorBits(z / 2, AndBits(x / 2, XorBits(y / 2, z / 2)))
    ensures XorBits(AndBits(x, y), AndBits(n, z)) / 2 == XorBits(AndBits(x / 2, y / 2), AndBits(n / 2, z / 2))
  {
    hide AndBits, XorBits;
    XorHalves(y, z);
    AndHalves(x, XorBits(y, z));
    XorHalves(z, AndBits(x, XorBits(y, z)));
    AndHalves(x, y);
    AndHalves(n, z);
    XorHalves(AndBits(x, y), AndBits(n, z));
  }

  // Their lowest bit, n having the other one than x.
  lemma ChLow(x: nat, y: nat, z: nat, n: nat)
    requires n % 2 == 1 - x % 2
    ensures XorBits(z, AndBits(x, XorBits(y, z))) % 2 == XorBits(AndBits(x, y), AndBits(n, z)) % 2
  {
    hide AndBits, XorBits;
    XorHalves(y, z);
    AndHalves(x, XorBits(y, z));
    XorHalves(z, AndBits(x, XorBits(y, z)));
    AndHalves(x, y);
    AndHalves(n, z);
    XorHalves(AndBits(x, y), AndBits(n, z));
  }

  lemma {:induction false} MajBits(x: nat, y: nat, z: nat)
    ensures OrBits(AndBits(OrBits(x, y), z), AndBits(x, y))
         == XorBits(XorBits(AndBits(x, y), AndBits(x, z)), AndBits(y, z))
    decreases x + y + z
  {
    if x + y + z > 0 {
      MajBits(x / 2, y / 2, z / 2);
      hide AndBits, OrBits, XorBits;
      OrHalves(x, y);
      AndHalves(OrBits(x, y), z);
      AndHalves(x, y);
      AndHalves(x, z);
      AndHalves(y, z);
      OrHalves(AndBits(OrBits(x, y), z), AndBits(x, y));
      XorHalves(AndBits(x, y), AndBits(x, z));
      XorHalves(XorBits(AndBits(x, y), AndBits(x, z)), AndBits(y, z));
    }
  }

  /** The rewritten choice and majority agree with section 4.1.2 of FIPS 180-4. */
  lemma FastFormsAgree(x: word, y: word, z: word)
    ensures FastCh(x, y, z) == Ch(x, y, z)
    ensures FastMaj(x, y, z) == Maj(x, y, z)
  {
    hide AndBits, OrBits, XorBits, Power;
    PowerOf32();
    ChBits(x, y, z, 32);
    MajBits(x, y, z);
  }

  // ---------------------------------------------------------------- one block

  // The first n words of `w` are those of the schedule.
  ghost predicate Scheduled(w: array<word>, block: Block, n: nat)
    reads w
  {
    w.Length == 64 && n <= 64 && forall t: nat :: t < n ==> w[t] == Schedule(block, t)
  }

  lemma ScheduleAt(block: Block, t: nat)
    requires t < 64
    ensures t < 16 ==> Schedule(block, t) == BlockWord(block, t)
    ensures t >= 16 ==>
      Schedule(block, t) == ScheduleStep(
        Schedule(block, t - 2), Schedule(block, t - 7), Schedule(block, t - 15), Schedule(block, t - 16))
  {
    hide BlockWord, ScheduleStep;
  }

  method LoadSchedule(block: Block) returns (w: array<word>)
    ensures fresh(w) && Scheduled(w, block, 64)
  {
    hide Schedule, BlockWord, ScheduleStep;
    w := new word[64](_ => 0);
    for i := 0 to 16
      invariant Scheduled(w, block, i)
    {
      ScheduleAt(block, i);
      w[i] := BlockWord(block, i);
    }
    for i := 16 to 64
      invariant Scheduled(w, block, i)
    {
      ScheduleAt(block, i);
      w[i] := ScheduleStep(w[i - 2], w[i - 7], w[i - 15], w[i - 16]);
    }
  }

  /** RND on the eight registers, and their rotation. */
  method Rnd(s: array<word>, k: word, w: word, ghost v: Vars)
    requires s.Length == 8 && s[..] == WordsOf(v)
    modifies s
    ensures s[..] == WordsOf(Round(v, k, w))
  {
    hide FastCh, FastMaj, Ch, Maj, BigSigma0, BigSigma1, Add;
    FastFormsAgree(s[4], s[5], s[6]);
    FastFormsAgree(s[0], s[1], s[2]);
    var t0 := Add(Add(Add(Add(s[7], BigSigma1(s[4])), FastCh(s[4], s[5], s[6])), k), w);
    var t1 := Add(BigSigma0(s[0]), FastMaj(s[0], s[1], s[2]));
    Rotate(s, t0, t1);
  }

  method Rotate(s: array<word>, t0: word, t1: word)
    requires s.Length == 8
    modifies s
    ensures s[..] == old([Add(t0, t1), s[0], s[1], s[2], Add(s[3], t0), s[4], s[5], s[6]])
  {
    s[3] := Add(s[3], t0);
    s[7] := Add(t0, t1);
    s[7], s[6], s[5], s[4], s[3], s[2], s[1], s[0] := s[6], s[5], s[4], s[3], s[2], s[1], s[0], s[7];
  }

  method RunRounds(s: array<word>, k: seq<word>, w: array<word>, ghost v: Vars, ghost block: Block)
    requires s.Length == 8 && |k| == 64 && w.Length == 64 && s != w
    requires s[..] == WordsOf(v)
    requires Scheduled(w, block, 64)
    modifies s
    ensures s[..] == WordsOf(Rounds(v, k, block, |k|))
  {
    ghost var now := v;
    for i := 0 to |k|
      invariant now == Rounds(v, k, block, i) && s[..] == WordsOf(now)
    {
      Rnd(s, k[i], w[i], now);
      now := Round(now, k[i], w[i]);
    }
  }

  method ShaCompress(state: array<word>, block: Block)
    requires state.Length == 8
    modifies state
    ensures state[..] == Compress(old(state[..]), block)
  {
    TableSizes();
    CompressTable(state, block, K);
  }

  method CompressTable(state: array<word>, block: Block, k: seq<word>)
    requires state.Length == 8 && |k| == 64
    modifies state
    ensures state[..] == CompressWith(k, old(state[..]), block)
  {
    ghost var r := Rounds(VarsOf(state[..]), k, block, |k|);
    var s := CopyState(state);
    var w := LoadSchedule(block);
    RunRounds(s, k, w, VarsOf(state[..]), block);
    Feedback(state, s, WordsOf(r));
  }

  method CopyState(state: array<word>) returns (s: array<word>)
    requires state.Length == 8
    ensures fresh(s) && s.Length == 8 && s[..] == WordsOf(VarsOf(state[..]))
  {
    s := new word[8](_ => 0);
    for i := 0 to 8
      invariant s[..i] == state[..i]
    {
      s[i] := state[i];
    }
    assert s[..] == state[..];
  }

  method Feedback(state: array<word>, s: array<word>, ghost r: Hash)
    requires state.Length == 8 && s.Length == 8 && state != s && s[..] == r
    modifies state
    ensures state[..] == AddWords(old(state[..]), r)
  {
    for i := 0 to 8
      invariant forall k :: 0 <= k < i ==> state[k] == Add(old(state[k]), s[k])
      invariant forall k :: i <= k < 8 ==> state[k] == old(state[k])
    {
      state[i] := Add(state[i], s[i]);
    }
  }
}
