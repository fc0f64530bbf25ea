/**
 * Bounds-checked access to a 64 KiB memory store (`MemoryAccess` in
 * lib/mc6800sim/memory.py). The read-only queries are functions of the
 * memory's contents; `deposit` and `depword` are methods that validate
 * every value first and then write one slice of the array in place.
 */
module Memory {
  import opened Bits
  import opened Wrappers

  /** Number of cells in the store: addresses $0000-$FFFF. */
  const MemSize := 0x10000

  /** One element of a sequence argument: Python accepts any object there and checks it. */
  datatype Value = Int(n: int) | NonIntegral

  /** One argument of `deposit`/`depword`: an integer, a sequence of values, or anything else. */
  datatype Arg = Scalar(n: int) | Items(items: seq<Value>) | Unsupported

  /** What made a `ValueError`: a non-integral element, a value out of range, a bad argument. */
  datatype ValueProblem = NotIntegral | OutOfRange(value: int) | NotAnArgument

  /**
   * `ValueError` carries the deposit address and what was wrong; `IndexError`
   * carries the last address that does not exist.
   */
  datatype MemError = ValueError(addr: int, problem: ValueProblem) | IndexError(lastAddr: int)

  // ---------------------------------------------------------------------
  // Validation of deposit arguments

  /** An element passes `assertvalue`: integral and in 0..max. */
  predicate ValueValid(v: Value, max: nat)
  {
    v.Int? && 0 <= v.n <= max
  }

  /** An argument is accepted: an integer in range, or a sequence of such. */
  predicate ArgValid(arg: Arg, max: nat)
  {
    match arg
    case Scalar(n) => 0 <= n <= max
    case Items(items) => forall i :: 0 <= i < |items| ==> ValueValid(items[i], max)
    case Unsupported => false
  }

  predicate ArgsValid(args: seq<Arg>, max: nat)
  {
    forall i :: 0 <= i < |args| ==> ArgValid(args[i], max)
  }

  /** How many values an argument contributes to the flattened list. */
  function Count(arg: Arg): nat
  {
    match arg
    case Scalar(_) => 1
    case Items(items) => |items|
    case Unsupported => 0
  }

  function TotalCount(args: seq<Arg>): nat
  {
    if args == [] then 0 else Count(args[0]) + TotalCount(args[1..])
  }

  /** `assertvalue` on one element (memory.py:59-63 for bytes, 96-100 for words). */
  function CheckValue(addr: int, v: Value, max: nat): (r: Result<int, MemError>)
    ensures r.Success? <==> ValueValid(v, max)
    ensures r.Success? ==> r.value == v.n
    ensures r.Failure? ==> r.error == ValueError(addr, if v.Int? then OutOfRange(v.n) else NotIntegral)
  {
    match v
    case NonIntegral => Failure(ValueError(addr, NotIntegral))
    case Int(n) => if n < 0 || n > max then Failure(ValueError(addr, OutOfRange(n))) else Success(n)
  }

  /** Index of the first element that fails `assertvalue`, or the length when none does. */
  function FirstBadItem(items: seq<Value>, max: nat): (k: nat)
    ensures k <= |items|
    ensures forall i :: 0 <= i < k ==> ValueValid(items[i], max)
    ensures k < |items| ==> !ValueValid(items[k], max)
  {
    if items == [] || !ValueValid(items[0], max) then 0 else 1 + FirstBadItem(items[1..], max)
  }

  /** `list(map(assertvalue, value))` on a sequence argument: the first bad element raises. */
  function CheckItems(addr: int, items: seq<Value>, max: nat): (r: Result<seq<int>, MemError>)
    ensures r.Success? <==> (forall i :: 0 <= i < |items| ==> ValueValid(items[i], max))
    ensures r.Success? ==> |r.value| == |items| && forall i :: 0 <= i < |items| ==> r.value[i] == items[i].n
    ensures r.Failure? ==> FirstBadItem(items, max) < |items| &&
                           r.error == CheckValue(addr, items[FirstBadItem(items, max)], max).error
  {
    if items == [] then Success([])
    else
      var n :- CheckValue(addr, items[0], max);
      var rest :- CheckItems(addr, items[1..], max);
      assert forall i :: 1 <= i < |items| ==> items[i] == items[1..][i - 1];
      Success([n] + rest)
  }

  /** One trip of the argument loop: what an argument adds to the list, or the error it raises. */
  function CheckArg(addr: int, arg: Arg, max: nat): (r: Result<seq<int>, MemError>)
    ensures r.Success? <==> ArgValid(arg, max)
    ensures r.Success? ==> |r.value| == Count(arg) && forall i :: 0 <= i < |r.value| ==> 0 <= r.value[i] <= max
    ensures r.Success? && arg.Scalar? ==> r.value == [arg.n]
    ensures r.Success? && arg.Items? ==> forall i :: 0 <= i < |r.value| ==> r.value[i] == arg.items[i].n
    ensures r.Failure? && arg.Scalar? ==> r.error == ValueError(addr, OutOfRange(arg.n))
    ensures r.Failure? && arg.Items? ==>
              r.error == CheckValue(addr, arg.items[FirstBadItem(arg.items, max)], max).error
    ensures arg.Unsupported? ==> r == Failure(ValueError(addr, NotAnArgument))
  {
    match arg
    case Scalar(n) => if n < 0 || n > max then Failure(ValueError(addr, OutOfRange(n))) else Success([n])
    case Items(items) => CheckItems(addr, items, max)
    case Unsupported => Failure(ValueError(addr, NotAnArgument))
  }

  /** Index of the first argument that is not accepted, or the length when all are. */
  function FirstBadArg(args: seq<Arg>, max: nat): (k: nat)
    ensures k <= |args|
    ensures forall i :: 0 <= i < k ==> ArgValid(args[i], max)
    ensures k < |args| ==> !ArgValid(args[k], max)
  {
    if args == [] || !ArgValid(args[0], max) then 0 else 1 + FirstBadArg(args[1..], max)
  }

  /**
   * The argument loop of `deposit` and `depword`: scalars and sequences
   * flattened in order, every value checked, the first bad one raising.
   */
  function Flatten(addr: int, args: seq<Arg>, max: nat): (r: Result<seq<int>, MemError>)
    ensures r.Success? <==> ArgsValid(args, max)
    ensures r.Success? ==> |r.value| == TotalCount(args)
    ensures r.Success? ==> forall i :: 0 <= i < |r.value| ==> 0 <= r.value[i] <= max
    ensures r.Failure? ==> FirstBadArg(args, max) < |args| &&
                           r.error == CheckArg(addr, args[FirstBadArg(args, max)], max).error
  {
    if args == [] then Success([])
    else
      var vs :- CheckArg(addr, args[0], max);
      var rest :- Flatten(addr, args[1..], max);
      assert forall i :: 1 <= i < |args| ==> args[i] == args[1..][i - 1];
      Success(vs + rest)
  }

  /** Both lists checked in order: the first failure wins, otherwise the values are concatenated. */
  function Then(r1: Result<seq<int>, MemError>, r2: Result<seq<int>, MemError>): Result<seq<int>, MemError>
  {
    match r1
    case Failure(e) => Failure(e)
    case Success(v1) => match r2
      case Failure(e) => Failure(e)
      case Success(v2) => Success(v1 + v2)
  }

  /** Flattening processes the arguments strictly left to right. */
  lemma {:induction false} FlattenAppend(addr: int, a1: seq<Arg>, a2: seq<Arg>, max: nat)
    ensures Flatten(addr, a1 + a2, max) == Then(Flatten(addr, a1, max), Flatten(addr, a2, max))
  {
    if a1 == [] {
      assert a1 + a2 == a2;
      var f2 := Flatten(addr, a2, max);
      if f2.Success? {
        assert [] + f2.value == f2.value;
      }
    } else {
      assert (a1 + a2)[0] == a1[0];
      assert (a1 + a2)[1..] == a1[1..] + a2;
      FlattenAppend(addr, a1[1..], a2, max);
      var c := CheckArg(addr, a1[0], max);
      var f1, f2 := Flatten(addr, a1[1..], max), Flatten(addr, a2, max);
      if c.Success? && f1.Success? && f2.Success? {
        assert c.value + (f1.value + f2.value) == (c.value + f1.value) + f2.value;
      }
    }
  }

  /** The argument loop as the source runs it, one argument at a time. */
  method FlattenArgs(addr: int, args: seq<Arg>, max: nat) returns (r: Result<seq<int>, MemError>)
    ensures r == Flatten(addr, args, max)
  {
    var vlist: seq<int> := [];
    var i := 0;
    while i < |args|
      invariant 0 <= i <= |args|
      invariant Flatten(addr, args[..i], max) == Success(vlist)
      decreases |args| - i
    {
      FlattenAppend(addr, args[..i], [args[i]], max);
      assert args[..i + 1] == args[..i] + [args[i]];
      assert Flatten(addr, [args[i]], max) == Then(CheckArg(addr, args[i], max), Success([]));
      match args[i] {
      case Scalar(n) =>
        if n < 0 || n > max {
          r := Failure(ValueError(addr, OutOfRange(n)));
          FlattenAppend(addr, args[..i + 1], args[i + 1..], max);
          assert args == args[..i + 1] + args[i + 1..];
          return;
        }
        assert [n] + [] == [n];
        vlist := vlist + [n];
      case Items(items) =>
        var checked := CheckItems(addr, items, max);
        if checked.Failure? {
          r := Failure(checked.error);
          FlattenAppend(addr, args[..i + 1], args[i + 1..], max);
          assert args == args[..i + 1] + args[i + 1..];
          return;
        }
        assert checked.value + [] == checked.value;
        vlist := vlist + checked.value;
      case Unsupported =>
        r := Failure(ValueError(addr, NotAnArgument));
        FlattenAppend(addr, args[..i + 1], args[i + 1..], max);
        assert args == args[..i + 1] + args[i + 1..];
        return;
      }
      i := i + 1;
    }
    assert args[..i] == args;
    r := Success(vlist);
  }

  // ---------------------------------------------------------------------
  // Reading

  /** `bytes(addr, n)`: the n cells from addr, or IndexError naming the last address. */
  function Bytes(m: seq<Byte>, addr: Word, n: nat): (r: Result<seq<Byte>, MemError>)
    requires |m| == MemSize
    ensures r.Success? <==> addr + n - 1 <= 0xFFFF
    ensures r.Success? ==> |r.value| == n && forall i :: 0 <= i < n ==> r.value[i] == m[addr + i]
    ensures r.Failure? ==> r.error == IndexError(addr + n - 1)
  {
    if addr + n > |m| then Failure(IndexError(addr + n - 1)) else Success(m[addr..addr + n])
  }

  /** `byte(addr)`: the one cell that `bytes(addr, 1)` returns. */
  function ByteAt(m: seq<Byte>, addr: Word): (v: Byte)
    requires |m| == MemSize
    ensures Bytes(m, addr, 1) == Success([v])
  {
    assert m[addr..addr + 1] == [m[addr]];
    m[addr]
  }

  /** `word(addr)`: big-endian, the cell at addr is the high byte. */
  function WordAt(m: seq<Byte>, addr: Word): (w: Word)
    requires |m| == MemSize && addr < 0xFFFF
    ensures w / 0x100 == m[addr] && w % 0x100 == m[addr + 1]
  {
    (m[addr] as int) * 0x100 + m[addr + 1]
  }

  /** `words(addr, n)`: n big-endian words at stride 2. */
  function Words(m: seq<Byte>, addr: Word, n: nat): (ws: seq<Word>)
    requires |m| == MemSize && (n == 0 || addr + 2 * n <= MemSize)
    ensures |ws| == n && forall i :: 0 <= i < n ==> ws[i] == WordAt(m, addr + 2 * i)
    ensures n > 0 ==> Bytes(m, addr, 2 * n).Success?
    ensures n > 0 ==> forall i :: 0 <= i < n ==>
      ws[i] == Bytes(m, addr, 2 * n).value[2 * i] as int * 0x100 + Bytes(m, addr, 2 * n).value[2 * i + 1]
  {
    seq(n, i requires 0 <= i < n => WordAt(m, addr + 2 * i))
  }

  // ---------------------------------------------------------------------
  // Writing

  /** The memory after a slice write of `data` at addr: those cells replaced, all others kept. */
  function Overwrite(m: seq<Byte>, addr: nat, data: seq<Byte>): (m': seq<Byte>)
    requires addr + |data| <= |m|
    ensures |m'| == |m|
    ensures forall k :: 0 <= k < |m| ==> m'[k] == if addr <= k < addr + |data| then data[k - addr] else m[k]
  {
    m[..addr] + data + m[addr + |data|..]
  }

  /** What `deposit(addr, *args)` returns or raises (memory.py:48-81). */
  function DepositResult(addr: Word, args: seq<Arg>): (r: Result<seq<Byte>, MemError>)
    ensures r.Success? ==> Flatten(addr, args, 0xFF) == Success(r.value) && addr + |r.value| <= MemSize
    ensures Flatten(addr, args, 0xFF).Failure? ==> r == Failure(Flatten(addr, args, 0xFF).error)
    ensures Flatten(addr, args, 0xFF).Success? && addr + |Flatten(addr, args, 0xFF).value| > MemSize ==>
              r == Failure(IndexError(addr + |Flatten(addr, args, 0xFF).value| - 1))
  {
    var vlist :- Flatten(addr, args, 0xFF);
    var lastaddr := addr + |vlist| - 1;
    if lastaddr > 0xFFFF then Failure(IndexError(lastaddr))
    else
      var data: seq<Byte> := vlist;
      Success(data)
  }

  /**
   * `deposit` succeeds exactly when every value is an integer in 0..0xFF and
   * the last address exists; a bad value is reported before a bad range.
   */
  lemma DepositOutcome(addr: Word, args: seq<Arg>)
    ensures DepositResult(addr, args).Success? <==> ArgsValid(args, 0xFF) && addr + TotalCount(args) <= MemSize
    ensures !ArgsValid(args, 0xFF) ==> DepositResult(addr, args).Failure? && DepositResult(addr, args).error.ValueError?
    ensures ArgsValid(args, 0xFF) && addr + TotalCount(args) > MemSize ==>
              DepositResult(addr, args) == Failure(IndexError(addr + TotalCount(args) - 1))
    ensures DepositResult(addr, args).Success? ==> |DepositResult(addr, args).value| == TotalCount(args)
  {
    var flat := Flatten(addr, args, 0xFF);
    if flat.Success? {
      assert |flat.value| == TotalCount(args);
    }
  }

  /** After a successful deposit, `bytes(addr, len(data))` reads the deposited bytes back. */
  lemma DepositThenBytes(m: seq<Byte>, addr: Word, args: seq<Arg>)
    requires |m| == MemSize && DepositResult(addr, args).Success?
    ensures var data := DepositResult(addr, args).value;
            Bytes(Overwrite(m, addr, data), addr, |data|) == Success(data)
  {
    var data := DepositResult(addr, args).value;
    var m' := Overwrite(m, addr, data);
    assert m'[addr..addr + |data|] == data;
  }

  /** A single byte deposited at an existing address always succeeds and changes that cell alone. */
  lemma DepositOneByte(m: seq<Byte>, addr: Word, v: Byte)
    requires |m| == MemSize
    ensures DepositResult(addr, [Scalar(v)]) == Success([v])
    ensures Overwrite(m, addr, [v]) == m[addr := v]
  {
    assert [Scalar(v)][1..] == [];
    assert Flatten(addr, [Scalar(v)], 0xFF) == Success([v] + []);
    assert [v] + [] == [v];
  }

  /** `deposit(addr, *args)`: validate everything, then write one slice (memory.py:48-81). */
  method Deposit(mem: array<Byte>, addr: Word, args: seq<Arg>) returns (r: Result<seq<Byte>, MemError>)
    requires mem.Length == MemSize
    modifies mem
    ensures r == DepositResult(addr, args)
    ensures r.Success? ==> mem[..] == Overwrite(old(mem[..]), addr, r.value)
    ensures r.Failure? ==> mem[..] == old(mem[..])
  {
    var flat := FlattenArgs(addr, args, 0xFF);
    if flat.Failure? {
      return Failure(flat.error);
    }
    var vlist := flat.value;
    var lastaddr := addr + |vlist| - 1;
    if lastaddr > 0xFFFF {
      return Failure(IndexError(lastaddr));
    }
    forall k | addr <= k <= lastaddr {
      mem[k] := vlist[k - addr];
    }
    assert mem[..] == Overwrite(old(mem[..]), addr, vlist);
    r := Success(vlist);
  }

  /** Each word as two bytes, MSB first (memory.py:113-116). */
  function EncodeWords(ws: seq<Word>): (data: seq<Byte>)
    ensures |data| == 2 * |ws|
    ensures forall i :: 0 <= i < |ws| ==> data[2 * i] == ws[i] / 0x100 && data[2 * i + 1] == ws[i] % 0x100
  {
    if ws == [] then []
    else EncodeWords(ws[..|ws| - 1]) + [ws[|ws| - 1] / 0x100, ws[|ws| - 1] % 0x100]
  }

  /**
   * The byte list as the single sequence argument `depword` passes to
   * `deposit`: at any address it passes the byte check and comes back as
   * the same bytes, in order.
   */
  function AsValues(data: seq<Byte>): (vs: seq<Value>)
    ensures |vs| == |data| && forall i :: 0 <= i < |data| ==> vs[i] == Int(data[i])
    ensures forall addr :: CheckArg(addr, Items(vs), 0xFF) == Success(data)
  {
    var vs := seq(|data|, i requires 0 <= i < |data| => Int(data[i]));
    assert forall addr :: CheckArg(addr, Items(vs), 0xFF) == Success(data) by {
      forall addr ensures CheckArg(addr, Items(vs), 0xFF) == Success(data) {
        var checked := CheckItems(addr, vs, 0xFF);
        assert forall i :: 0 <= i < |vs| ==> ValueValid(vs[i], 0xFF);
        assert checked.Success?;
        assert checked.value == data;
      }
    }
    vs
  }

  /** What `depword(addr, *args)` returns or raises (memory.py:87-119). */
  function DepWordResult(addr: Word, args: seq<Arg>): (r: Result<seq<Byte>, MemError>)
    ensures r.Success? ==> Flatten(addr, args, 0xFFFF).Success? &&
                           r.value == EncodeWords(Flatten(addr, args, 0xFFFF).value) && addr + |r.value| <= MemSize
    ensures Flatten(addr, args, 0xFFFF).Failure? ==> r == Failure(Flatten(addr, args, 0xFFFF).error)
    ensures Flatten(addr, args, 0xFFFF).Success? && addr + 2 * |Flatten(addr, args, 0xFFFF).value| > MemSize ==>
              r == Failure(IndexError(addr + 2 * |Flatten(addr, args, 0xFFFF).value| - 1))
  {
    var vlist :- Flatten(addr, args, 0xFFFF);
    var words: seq<Word> := vlist;
    var data := EncodeWords(words);
    if addr + |data| - 1 > 0xFFFF then Failure(IndexError(addr + |data| - 1))
    else Success(data)
  }

  /**
   * `depword` succeeds exactly when every value is an integer in 0..0xFFFF
   * and the last byte of the encoded words has an address; a bad value is
   * reported before a bad range.
   */
  lemma DepWordOutcome(addr: Word, args: seq<Arg>)
    ensures DepWordResult(addr, args).Success? <==> ArgsValid(args, 0xFFFF) && addr + 2 * TotalCount(args) <= MemSize
    ensures !ArgsValid(args, 0xFFFF) ==> DepWordResult(addr, args).Failure? && DepWordResult(addr, args).error.ValueError?
    ensures ArgsValid(args, 0xFFFF) && addr + 2 * TotalCount(args) > MemSize ==>
              DepWordResult(addr, args) == Failure(IndexError(addr + 2 * TotalCount(args) - 1))
    ensures DepWordResult(addr, args).Success? ==> |DepWordResult(addr, args).value| == 2 * TotalCount(args)
  {
    var flat := Flatten(addr, args, 0xFFFF);
    var r := DepWordResult(addr, args);
    if flat.Success? {
      assert |flat.value| == TotalCount(args);
      if r.Success? {
        assert |r.value| == 2 * |flat.value|;
      }
    }
  }

  /** `depword` hands `deposit` one sequence of valid bytes, so only the range can fail there. */
  lemma DepositOfEncoded(addr: Word, data: seq<Byte>)
    ensures DepositResult(addr, [Items(AsValues(data))]) ==
              if addr + |data| - 1 > 0xFFFF then Failure(IndexError(addr + |data| - 1)) else Success(data)
  {
    var vs := AsValues(data);
    assert [Items(vs)][1..] == [];
    assert CheckArg(addr, Items(vs), 0xFF) == Success(data);
    assert Flatten(addr, [Items(vs)], 0xFF) == Success(data + []);
    assert data + [] == data;
  }

  /** After a successful `depword`, `words(addr, n)` reads back the n values deposited. */
  lemma {:induction false} DepWordThenWords(m: seq<Byte>, addr: Word, args: seq<Arg>)
    requires |m| == MemSize && DepWordResult(addr, args).Success?
    ensures Flatten(addr, args, 0xFFFF).Success?
    ensures var ws := Flatten(addr, args, 0xFFFF).value;
            var data := DepWordResult(addr, args).value;
            |data| == 2 * |ws| && Words(Overwrite(m, addr, data), addr, |ws|) == ws
  {
    var ws := Flatten(addr, args, 0xFFFF).value;
    var data := DepWordResult(addr, args).value;
    var m' := Overwrite(m, addr, data);
    var read := Words(m', addr, |ws|);
    forall i | 0 <= i < |ws|
      ensures read[i] == ws[i]
    {
      assert m'[addr + 2 * i] == data[2 * i] == ws[i] / 0x100;
      assert m'[addr + 2 * i + 1] == data[2 * i + 1] == ws[i] % 0x100;
    }
  }

  /** The loop of `depword` that lays the words out as bytes, MSB first (memory.py:113-116). */
  method EncodeLoop(words: seq<Word>) returns (data: seq<Byte>)
    ensures data == EncodeWords(words)
  {
    data := [];
    var i := 0;
    while i < |words|
      invariant 0 <= i <= |words|
      invariant data == EncodeWords(words[..i])
    {
      assert words[..i + 1][..i] == words[..i];
      data := data + [words[i] / 0x100];   // MSB first for the 6800
      data := data + [words[i] % 0x100];   // LSB
      i := i + 1;
    }
    assert words[..i] == words;
  }

  /** `depword(addr, *args)`: validate, encode MSB first, deposit, read back (memory.py:87-119). */
  method DepWord(mem: array<Byte>, addr: Word, args: seq<Arg>) returns (r: Result<seq<Byte>, MemError>)
    requires mem.Length == MemSize
    modifies mem
    ensures r == DepWordResult(addr, args)
    ensures r.Success? ==> mem[..] == Overwrite(old(mem[..]), addr, r.value)
    ensures r.Success? ==> Bytes(mem[..], addr, |r.value|) == r
    ensures r.Failure? ==> mem[..] == old(mem[..])
  {
    var flat := FlattenArgs(addr, args, 0xFFFF);
    if flat.Failure? {
      return Failure(flat.error);
    }
    var words: seq<Word> := flat.value;
    var data := EncodeLoop(words);
    DepositOfEncoded(addr, data);
    var deposited := Deposit(mem, addr, [Items(AsValues(data))]);
    if deposited.Failure? {
      return Failure(deposited.error);
    }
    r := Bytes(mem[..], addr, |words| * 2);
    assert r.value == data;
  }
}
