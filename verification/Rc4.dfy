/** The RC4 key schedule and generator of crypto.h. */
module Rc4 {
  import opened Bytes
  import opened Modulo

  const DATA_SIZE := 256

  type Table = s: seq<byte> | |s| == DATA_SIZE witness seq(DATA_SIZE, i => 0)

  function Identity(): Table
  {
    seq(DATA_SIZE, i requires 0 <= i < DATA_SIZE => i)
  }

  function Swap(s: Table, i: nat, j: nat): Table
    requires i < DATA_SIZE && j < DATA_SIZE
  {
    s[i := s[j]][j := s[i]]
  }

  /** Every byte value occurs exactly once. */
  ghost predicate Permutation(s: Table)
  {
    multiset(s) == multiset(Identity())
  }

  lemma SwapPermutes(s: Table, i: nat, j: nat)
    requires i < DATA_SIZE && j < DATA_SIZE
    ensures multiset(Swap(s, i, j)) == multiset(s)
  {
  }

  lemma SwapUndoes(s: Table, i: nat, j: nat)
    requires i < DATA_SIZE && j < DATA_SIZE
    ensures Swap(Swap(s, i, j), i, j) == s
  {
  }

  // -------------------------------------------------------------------------
  // Key schedule
  // -------------------------------------------------------------------------

  datatype ScheduleState = ScheduleState(j: byte, table: Table)

  /** The state after `i` rounds: round `i` uses key byte `i mod length`. */
  function Scheduled(key: seq<byte>, i: nat): ScheduleState
    requires key != [] && i <= DATA_SIZE
  {
    if i == 0 then ScheduleState(0, Identity())
    else
      var before := Scheduled(key, i - 1);
      var j := (before.j + before.table[i - 1] + key[(i - 1) % |key|]) % 256;
      ScheduleState(j, Swap(before.table, i - 1, j))
  }

  function Schedule(key: seq<byte>): Table
    requires key != []
  {
    Scheduled(key, DATA_SIZE).table
  }

  /** RC4Key */
  class Key {
    const data: array<byte>

    ghost function Contents(): Table
      reads data
      requires data.Length == DATA_SIZE
    {
      data[..]
    }

    /** The constructor's own key iterator restarts when it reaches the end. */
    constructor (key: seq<byte>)
      requires key != []
      ensures fresh(data) && data.Length == DATA_SIZE && Contents() == Schedule(key)
    {
      data := new byte[DATA_SIZE](i requires 0 <= i < DATA_SIZE => i);
      new;
      assert data[..] == Identity();
      var j, iter := 0, 0;
      for i := 0 to DATA_SIZE
        invariant 0 <= j < DATA_SIZE && 0 <= iter < |key| && iter == i % |key|
        invariant Scheduled(key, i) == ScheduleState(j, data[..])
      {
        ScheduleRound(key, i, j, data[..]);
        NextModulo(i, |key|, iter);
        j := (j + data[i] + key[iter]) % 256;
        iter := iter + 1;
        if iter == |key| {
          iter := 0;
        }
        SwapInPlace(data, i, j);
      }
    }
  }

  lemma ScheduleRound(key: seq<byte>, i: nat, j: byte, table: Table)
    requires key != [] && i < DATA_SIZE && Scheduled(key, i) == ScheduleState(j, table)
    ensures var j' := (j + table[i] + key[i % |key|]) % 256;
      Scheduled(key, i + 1) == ScheduleState(j', Swap(table, i, j'))
  {
    var n := i + 1;
    assert n - 1 == i && n > 0;
  }

  /** `std::swap` on two entries. */
  method SwapInPlace(data: array<byte>, i: nat, j: nat)
    requires data.Length == DATA_SIZE && i < DATA_SIZE && j < DATA_SIZE
    modifies data
    ensures data[..] == Swap(old(data[..]), i, j)
  {
    data[i], data[j] := data[j], data[i];
  }

  /** The scheduled table is a permutation. */
  lemma {:induction false} SchedulePermutes(key: seq<byte>, i: nat)
    requires key != [] && i <= DATA_SIZE
    ensures Permutation(Scheduled(key, i).table)
  {
    if i > 0 {
      SchedulePermutes(key, i - 1);
      SwapPermutes(Scheduled(key, i - 1).table, i - 1, Scheduled(key, i).j);
    }
  }

  /** Only the key bytes used matter. */
  lemma {:induction false} ScheduleUses(a: seq<byte>, b: seq<byte>, i: nat)
    requires a != [] && b != [] && i <= DATA_SIZE
    requires forall k :: 0 <= k < i ==> a[k % |a|] == b[k % |b|]
    ensures Scheduled(a, i) == Scheduled(b, i)
  {
    if i > 0 {
      ScheduleUses(a, b, i - 1);
      assert a[(i - 1) % |a|] == b[(i - 1) % |b|];
    }
  }

  /** The first round exchanges entry 0 with entry `key[0]`. */
  lemma FirstRound(key: seq<byte>, k: nat)
    requires key != [] && k < DATA_SIZE
    ensures Scheduled(key, 1).j == key[0]
    ensures Scheduled(key, 1).table[k] == if k == 0 then key[0] else if k == key[0] then 0 else k
  {
    assert Scheduled(key, 0) == ScheduleState(0, Identity());
    assert 0 % |key| == 0 by { ModuloIs(0, |key|, 0, 0); }
  }

  /** Round `i` taken back with its key byte. */
  function Unround(s: ScheduleState, i: nat, b: byte): ScheduleState
    requires i < DATA_SIZE
  {
    var table := Swap(s.table, s.j, i);
    ScheduleState((s.j + 512 - table[i] - b) % 256, table)
  }

  /** Every round can be taken back by who knows its key byte. */
  lemma RoundUnround(key: seq<byte>, i: nat)
    requires key != [] && i < DATA_SIZE
    ensures Unround(Scheduled(key, i + 1), i, key[i % |key|]) == Scheduled(key, i)
  {
    var before, after, b := Scheduled(key, i), Scheduled(key, i + 1), key[i % |key|];
    ScheduleRound(key, i, before.j, before.table);
    assert Swap(after.table, after.j, i) == before.table;
    TakenBack(before.j, before.table[i], b);
  }

  lemma TakenBack(j: byte, t: byte, b: byte)
    ensures ((j + t + b) % 256 + 512 - t - b) % 256 == j
  {
  }

  /** Every key byte used matters: the first difference shows at once. */
  lemma FirstDifferenceShows(a: seq<byte>, b: seq<byte>, k: nat)
    requires a != [] && b != [] && k < DATA_SIZE
    requires forall i :: 0 <= i < k ==> a[i % |a|] == b[i % |b|]
    requires a[k % |a|] != b[k % |b|]
    ensures Scheduled(a, k + 1).j != Scheduled(b, k + 1).j
  {
    ScheduleUses(a, b, k);
    DifferentRounds(a, b, k, a[k % |a|], b[k % |b|]);
  }

  lemma DifferentRounds(a: seq<byte>, b: seq<byte>, k: nat, x: byte, y: byte)
    requires a != [] && b != [] && k < DATA_SIZE && Scheduled(a, k) == Scheduled(b, k)
    requires a[k % |a|] == x && b[k % |b|] == y && x != y
    ensures Scheduled(a, k + 1).j != Scheduled(b, k + 1).j
  {
    var s := Scheduled(a, k);
    RoundJ(a, k, s, x);
    RoundJ(b, k, s, y);
    DifferentSums(s.j + s.table[k], x, y);
  }

  lemma RoundJ(key: seq<byte>, i: nat, s: ScheduleState, b: byte)
    requires key != [] && i < DATA_SIZE && Scheduled(key, i) == s && key[i % |key|] == b
    ensures Scheduled(key, i + 1).j == (s.j + s.table[i] + b) % 256
  {
    ScheduleRound(key, i, s.j, s.table);
  }

  lemma DifferentSums(x: nat, a: byte, b: byte)
    requires a != b
    ensures (x + a) % 256 != (x + b) % 256
  {
  }

  /** A key whose every round exchanges an entry with itself: 0, 0, 255, 254, ..., 2. */
  function IdleKey(): seq<byte>
  {
    seq(DATA_SIZE, i requires 0 <= i < DATA_SIZE => if i == 0 then 0 else (257 - i) % 256)
  }

  lemma IdleSum(i: nat)
    requires 0 < i <= DATA_SIZE
    ensures ((if i == 1 then 0 else i - 2) + (i - 1) + IdleKey()[i - 1]) % 256 == i - 1
  {
    if i > 2 {
      assert IdleKey()[i - 1] == 258 - i;
      assert (i - 2) + (i - 1) + (258 - i) == 256 + (i - 1);
    }
  }

  lemma {:induction false} IdleRounds(i: nat)
    requires i <= DATA_SIZE
    ensures Scheduled(IdleKey(), i) == ScheduleState(if i == 0 then 0 else i - 1, Identity())
  {
    if i > 0 {
      IdleRounds(i - 1);
      ModuloIs(i - 1, DATA_SIZE, 0, i - 1);
      ScheduleRound(IdleKey(), i - 1, if i == 1 then 0 else i - 2, Identity());
      IdleSum(i);
      assert Swap(Identity(), i - 1, i - 1) == Identity();
    }
  }

  function Repeat(key: seq<byte>, times: nat): seq<byte>
  {
    if times == 0 then [] else key + Repeat(key, times - 1)
  }

  lemma {:induction false} RepeatAt(key: seq<byte>, times: nat, k: nat)
    requires key != [] && times > 0 && k < |Repeat(key, times)|
    ensures Repeat(key, times)[k] == key[k % |key|]
  {
    if k >= |key| {
      RepeatAt(key, times - 1, k - |key|);
      ModuloStep(k, |key|);
    }
  }

  lemma {:induction false} RepeatLength(key: seq<byte>, times: nat)
    ensures |Repeat(key, times)| == times * |key|
  {
    if times > 0 {
      RepeatLength(key, times - 1);
      assert times * |key| == (times - 1) * |key| + |key|;
    }
  }

  /** A key and the key written several times over schedule the same table. */
  lemma RepeatedKeySchedules(key: seq<byte>, times: nat)
    requires key != [] && times > 0
    ensures Repeat(key, times) != [] && Schedule(Repeat(key, times)) == Schedule(key)
  {
    var long := Repeat(key, times);
    RepeatLength(key, times);
    ModuloOfMultiple(0, |key|, times);
    forall k | 0 <= k < DATA_SIZE ensures long[k % |long|] == key[k % |key|] {
      RepeatAt(key, times, k % |long|);
      ModuloOfMultiple(k, |key|, times);
    }
    ScheduleUses(long, key, DATA_SIZE);
  }

  /** Key bytes after the first 256 are never used. */
  lemma LongKeySchedules(key: seq<byte>)
    requires |key| >= DATA_SIZE
    ensures Schedule(key) == Schedule(key[..DATA_SIZE])
  {
    forall k | 0 <= k < DATA_SIZE ensures key[k % |key|] == key[..DATA_SIZE][k % DATA_SIZE] {
      ModuloIs(k, |key|, 0, k);
    }
    ScheduleUses(key, key[..DATA_SIZE], DATA_SIZE);
  }

  // -------------------------------------------------------------------------
  // Generator
  // -------------------------------------------------------------------------

  datatype Generator = Generator(i: byte, j: byte, table: Table)

  /** One step of the generator, before the output byte is read. */
  function Step(g: Generator): Generator
  {
    var i := (g.i + 1) % 256;
    var j := (g.j + g.table[i]) % 256;
    Generator(i, j, Swap(g.table, i, j))
  }

  function Output(g: Generator): byte
  {
    var k: int := g.table[g.i] as int + g.table[g.j] as int;
    g.table[k % 256]
  }

  function Steps(g: Generator, n: nat): Generator
  {
    if n == 0 then g else Step(Steps(g, n - 1))
  }

  /** The first `n` output bytes. */
  function Keystream(g: Generator, n: nat): seq<byte>
  {
    if n == 0 then [] else Keystream(g, n - 1) + [Output(Steps(g, n))]
  }

  function Xor(a: byte, b: byte): byte
  {
    BitXorBound(a, b, 8);
    ShiftLeftEight(1);
    BitXor(a, b, 8)
  }

  function XorAll(data: seq<byte>, stream: seq<byte>): seq<byte>
    requires |stream| == |data|
  {
    seq(|data|, k requires 0 <= k < |data| => Xor(data[k], stream[k]))
  }

  lemma XorAllAppend(data: seq<byte>, stream: seq<byte>, d: byte, b: byte)
    requires |stream| == |data|
    ensures XorAll(data + [d], stream + [b]) == XorAll(data, stream) + [Xor(d, b)]
  {
  }

  /** The step taken back. */
  function Unstep(g: Generator): Generator
  {
    var table := Swap(g.table, g.i, g.j);
    Generator((g.i + 255) % 256, (g.j + 256 - table[g.i]) % 256, table)
  }

  lemma StepUnstep(g: Generator)
    ensures Unstep(Step(g)) == g
  {
    var s := Step(g);
    SwapUndoes(g.table, s.i, s.j);
    assert Swap(s.table, s.i, s.j) == g.table;
    assert (s.j + 256 - g.table[s.i]) % 256 == g.j;
    assert (s.i + 255) % 256 == g.i;
  }

  lemma UnstepStep(g: Generator)
    ensures Step(Unstep(g)) == g
  {
    var u := Unstep(g);
    SwapUndoes(g.table, g.i, g.j);
    assert (u.i + 1) % 256 == g.i;
    assert (u.j + u.table[g.i]) % 256 == g.j;
  }

  /** No two generator states meet: the n-step map is injective. */
  lemma {:induction false} StepsInjective(g: Generator, h: Generator, n: nat)
    requires Steps(g, n) == Steps(h, n)
    ensures g == h
  {
    if n > 0 {
      StepUnstep(Steps(g, n - 1));
      StepUnstep(Steps(h, n - 1));
      StepsInjective(g, h, n - 1);
    }
  }

  lemma StepPermutes(g: Generator)
    requires Permutation(g.table)
    ensures Permutation(Step(g).table)
  {
    SwapPermutes(g.table, Step(g).i, Step(g).j);
  }

  /** Every generator state keeps the permutation. */
  lemma {:induction false} StepsPermute(g: Generator, n: nat, end: Generator)
    requires Permutation(g.table) && end == Steps(g, n)
    ensures Permutation(end.table)
  {
    if n > 0 {
      var before := Steps(g, n - 1);
      StepsPermute(g, n - 1, before);
      StepPermutes(before);
    }
  }

  lemma {:induction false} KeystreamLength(g: Generator, n: nat)
    ensures |Keystream(g, n)| == n
  {
    if n > 0 {
      KeystreamLength(g, n - 1);
    }
  }

  /** The first output byte of every table. */
  lemma FirstByte(table: Table)
    ensures var x, y := table[1], table[table[1]]; var k := (x as int + y as int) % 256;
      Keystream(Generator(0, 0, table), 1) == [if k == 1 then y else if k == x then x else table[k]]
  {
    var g := Generator(0, 0, table);
    var s := Step(g);
    assert Steps(g, 1) == s by { assert Steps(g, 0) == g; }
    assert Keystream(g, 0) == [];
    assert s.i == 1 && s.j == table[1];
  }

  /** The bias found by Mantin and Shamir: with zero in entry 2 the second output byte is zero, unless entry 1 is 2. */
  lemma SecondByteIsZero(table: Table)
    requires table[2] == 0 && table[1] != 2
    ensures |Keystream(Generator(0, 0, table), 2)| == 2 && Keystream(Generator(0, 0, table), 2)[1] == 0
  {
    var g := Generator(0, 0, table);
    var s := Step(g);
    var s' := Step(s);
    assert Steps(g, 1) == s by { assert Steps(g, 0) == g; }
    assert Steps(g, 2) == s';
    KeystreamLength(g, 1);
    assert s.i == 1 && s.j == table[1] && s.table[2] == 0;
    assert s'.i == 2 && s'.j == s.j && s.table[s.j] == s.j;
    assert s'.table[2] == s.j && s'.table[s.j] == 0;
  }

  /** Finney's states, in which the counters run on in step with a one. */
  predicate Finney(g: Generator)
  {
    g.j == (g.i + 1) % 256 && g.table[g.j] == 1
  }

  /** A step never leaves them nor enters them. */
  lemma FinneyStep(g: Generator)
    ensures Finney(g) <==> Finney(Step(g))
  {
    var s := Step(g);
    StepUnstep(g);
    if Finney(s) {
      assert g.table[s.i] == s.table[s.j] == 1;
      assert g.j == (s.j + 255) % 256;
    }
  }

  /** So RC4, which starts with both counters at zero, is never in one. */
  lemma {:induction false} NeverFinney(table: Table, n: nat)
    ensures !Finney(Steps(Generator(0, 0, table), n))
  {
    if n > 0 {
      NeverFinney(table, n - 1);
      FinneyStep(Steps(Generator(0, 0, table), n - 1));
    }
  }

  lemma KeystreamNext(g: Generator, n: nat, s: Generator, stream: seq<byte>)
    requires Steps(g, n) == s && Keystream(g, n) == stream
    ensures Steps(g, n + 1) == Step(s) && Keystream(g, n + 1) == stream + [Output(Step(s))]
  {
  }

  /** One step, and the byte it puts out. */
  lemma StepIs(i: byte, j: byte, t: Table, j': byte, k: byte)
    requires i < 255 && (j + t[i + 1]) % 256 == j' && (t[i + 1] as int + t[j'] as int) % 256 == k
    ensures var s := Generator(i + 1, j', Swap(t, i + 1, j'));
      Step(Generator(i, j, t)) == s && Output(s) == Swap(t, i + 1, j')[k]
  {
  }

  /** The generator started on the identity table. */
  lemma IdentityKeystream()
    ensures Keystream(Generator(0, 0, Identity()), 4) == [2, 5, 7, 13]
  {
    var t := Identity();
    var g := Generator(0, 0, t);
    var t2 := Swap(t, 2, 3);
    var t3 := Swap(t2, 3, 5);
    assert Swap(t, 1, 1) == t;
    StepIs(0, 0, t, 1, 2);
    KeystreamNext(g, 0, g, []);
    StepIs(1, 1, t, 3, 5);
    KeystreamNext(g, 1, Generator(1, 1, t), [2]);
    StepIs(2, 3, t2, 5, 7);
    KeystreamNext(g, 2, Generator(2, 3, t2), [2, 5]);
    StepIs(3, 5, t3, 9, 13);
    KeystreamNext(g, 3, Generator(3, 5, t3), [2, 5, 7]);
  }

  /** Encrypting or decrypting `data` with a key table: both counters start at zero on each call. */
  function Cipher(table: Table, data: seq<byte>): seq<byte>
  {
    KeystreamLength(Generator(0, 0, table), |data|);
    XorAll(data, Keystream(Generator(0, 0, table), |data|))
  }

  /** `rc4`: the output, and the table that the key is left with. */
  method Rc4(data: seq<byte>, key: Key) returns (output: seq<byte>)
    requires key.data.Length == DATA_SIZE
    modifies key.data
    ensures output == Cipher(old(key.Contents()), data)
    ensures key.Contents() == Steps(Generator(0, 0, old(key.Contents())), |data|).table
  {
    ghost var g := Generator(0, 0, key.Contents());
    var i, j := 0, 0;
    output := [];
    KeystreamLength(g, 0);
    for start := 0 to |data|
      invariant 0 <= i < DATA_SIZE && 0 <= j < DATA_SIZE
      invariant Steps(g, start) == Generator(i, j, key.data[..])
      invariant |Keystream(g, start)| == start
      invariant output == XorAll(data[..start], Keystream(g, start))
    {
      var b: byte;
      i, j, b := NextByte(i, j, key);
      CipherAppend(g, data, start);
      output := output + [Xor(data[start], b)];
    }
    assert data[..|data|] == data;
  }

  lemma CipherAppend(g: Generator, data: seq<byte>, n: nat)
    requires n < |data|
    ensures |Keystream(g, n)| == n && |Keystream(g, n + 1)| == n + 1
    ensures XorAll(data[..n + 1], Keystream(g, n + 1)) ==
              XorAll(data[..n], Keystream(g, n)) + [Xor(data[n], Output(Step(Steps(g, n))))]
  {
    KeystreamLength(g, n);
    KeystreamLength(g, n + 1);
    assert data[..n + 1] == data[..n] + [data[n]];
    XorAllAppend(data[..n], Keystream(g, n), data[n], Output(Steps(g, n + 1)));
  }

  /** One round of the generator. */
  method NextByte(i: byte, j: byte, key: Key) returns (i': byte, j': byte, b: byte)
    requires key.data.Length == DATA_SIZE
    modifies key.data
    ensures Generator(i', j', key.Contents()) == Step(Generator(i, j, old(key.Contents())))
    ensures b == Output(Generator(i', j', key.Contents()))
  {
    i' := (i + 1) % DATA_SIZE;
    j' := (j + key.data[i']) % DATA_SIZE;
    SwapInPlace(key.data, i', j');
    b := key.data[(key.data[i'] + key.data[j']) % DATA_SIZE];
  }

  /** The cipher undoes itself: the keystream depends only on the table and the length. */
  lemma CipherTwice(table: Table, data: seq<byte>)
    ensures Cipher(table, Cipher(table, data)) == data
  {
    var stream := Keystream(Generator(0, 0, table), |data|);
    KeystreamLength(Generator(0, 0, table), |data|);
    ShiftLeftEight(1);
    forall k | 0 <= k < |data| ensures Xor(Xor(data[k], stream[k]), stream[k]) == data[k] {
      BitXorTwice(data[k], stream[k], 8);
    }
  }

  /** Zero bytes encrypt to the keystream itself. */
  lemma CipherOfZeros(table: Table, n: nat)
    ensures Cipher(table, Fill(0, n)) == Keystream(Generator(0, 0, table), n)
  {
    var stream := Keystream(Generator(0, 0, table), n);
    KeystreamLength(Generator(0, 0, table), n);
    ShiftLeftEight(1);
    forall k | 0 <= k < n ensures Xor(0, stream[k]) == stream[k] {
      BitXorZero(stream[k], 8);
    }
  }

  /** A whole run, from key to output. */
  lemma IdleKeyEncrypts()
    ensures Schedule(IdleKey()) == Identity() && Cipher(Schedule(IdleKey()), [0, 0, 0, 0]) == [2, 5, 7, 13]
  {
    IdleRounds(DATA_SIZE);
    IdentityKeystream();
    CipherOfZeros(Identity(), 4);
    assert Fill(0, 4) == [0, 0, 0, 0];
  }

  /** Two runs with two freshly scheduled keys give the data back and leave the keys alike. */
  method EncryptThenDecrypt(key: seq<byte>, data: seq<byte>)
    returns (secret: seq<byte>, back: seq<byte>, used1: Key, used2: Key)
    requires key != []
    ensures secret == Cipher(Schedule(key), data) && back == data
    ensures fresh(used1) && fresh(used2) && used1 != used2
    ensures used1.data.Length == DATA_SIZE == used2.data.Length
    ensures used1.Contents() == used2.Contents() == Steps(Generator(0, 0, Schedule(key)), |data|).table
  {
    used1 := new Key(key);
    secret := Rc4(data, used1);
    used2 := new Key(key);
    back := Rc4(secret, used2);
    CipherTwice(Schedule(key), data);
  }
}
