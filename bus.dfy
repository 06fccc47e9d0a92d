/** Machine words, bytes and the bus trace shared by every layer of the display driver. */
module Bus {

  /** A C `uint32_t`: every arithmetic result is reduced with Wrap32. */
  type U32 = n: int | 0 <= n < 0x1_0000_0000

  /** The conversion C applies when an arithmetic result is stored in a `uint32_t`. */
  function Wrap32(n: int): (r: U32)
    ensures (r - n) % 0x1_0000_0000 == 0
  {
    n % 0x1_0000_0000
  }

  /** The conversion C applies when a wider integer is stored in a `uint8_t`. */
  function Byte(n: int): bv8
  {
    (n % 256) as bv8
  }

  /** High byte of an RGB565 colour (`color >> 8`), the first on the wire. */
  function Hi(c: bv16): bv8
  {
    (c >> 8) as bv8
  }

  /** Low byte of an RGB565 colour (`(uint8_t) color`), the second on the wire. */
  function Lo(c: bv16): bv8
  {
    (c & 0xFF) as bv8
  }

  /** Big-endian order loses nothing: the two bytes on the wire rebuild the colour. */
  function Join(hi: bv8, lo: bv8): (c: bv16)
    ensures Hi(c) == hi && Lo(c) == lo
  {
    ((hi as bv16) << 8) | (lo as bv16)
  }

  lemma JoinHiLo(c: bv16)
    ensures Join(Hi(c), Lo(c)) == c
  {
  }

  function Min(a: int, b: int): int { if a <= b then a else b }

  /** LCD_BUFFER_SIZE: the largest chunk one write sends. */
  const BufferSize: nat := 15000

  /** The length of `lcd_buffer`: four spare bytes past LCD_BUFFER_SIZE. */
  const BufferLength: nat := BufferSize + 4

  /** One transaction on the serial bus.  Begin/End are chip select asserted/released
      (startWrite/endWrite), Cmd is one byte sent with the register-select line low
      (spiCommand), Data is one call of the byte writer with the line high. */
  datatype Event = Begin | End | Cmd(op: bv8) | Data(bytes: seq<bv8>)

  /** What the display driver's globals and the bus have seen: the trace so far, the pixel
      count of the last window (`widthheigthWindow`) and the contents of `lcd_buffer`. */
  datatype Lcd = Lcd(trace: seq<Event>, window: U32, buffer: seq<bv8>)

  /** The bytes of every Data event of a trace, in order. */
  function Payload(t: seq<Event>): seq<bv8>
  {
    if t == [] then []
    else (if t[0].Data? then t[0].bytes else []) + Payload(t[1..])
  }

  /** The lengths of the Data events of a trace, in order. */
  function Sizes(t: seq<Event>): seq<nat>
  {
    if t == [] then []
    else (if t[0].Data? then [|t[0].bytes|] else []) + Sizes(t[1..])
  }

  function Sum(s: seq<nat>): nat
  {
    if s == [] then 0 else s[0] + Sum(s[1..])
  }

  /** The command bytes of a trace, in order. */
  function Commands(t: seq<Event>): seq<bv8>
  {
    if t == [] then []
    else (if t[0].Cmd? then [t[0].op] else []) + Commands(t[1..])
  }

  predicate DataOnly(t: seq<Event>)
  {
    forall k :: 0 <= k < |t| ==> t[k].Data?
  }

  /** A trace with no Begin or End in it. */
  predicate Unframed(t: seq<Event>)
  {
    forall k :: 0 <= k < |t| ==> !t[k].Begin? && !t[k].End?
  }

  /** One chip-select period: Begin, commands and data, End. */
  predicate Transaction(t: seq<Event>)
  {
    |t| >= 2 && t[0] == Begin && t[|t| - 1] == End && Unframed(t[1..|t| - 1])
  }

  /** Chip-select discipline: read left to right starting with the bus released
      (`open == false`), every Begin comes while released, every End while asserted,
      every Cmd and Data while asserted, and the bus is released again at the end. */
  predicate Balanced(t: seq<Event>, open: bool)
    decreases |t|
  {
    if t == [] then !open
    else match t[0]
      case Begin => !open && Balanced(t[1..], true)
      case End => open && Balanced(t[1..], false)
      case _ => open && Balanced(t[1..], open)
  }

  /** Rewriting both halves of a concatenation, stated on plain sequences so that the
      solver can use it without unfolding the functions that produced them. */
  lemma RewriteAppend<T>(g: seq<T>, a: seq<T>, b: seq<T>, a1: seq<T>, b1: seq<T>)
    requires g == a + b && a == a1 && b == b1
    ensures g == a1 + b1
  {
  }

  /** Peeling the head c off g and the head lh off target, when the heads agree and the
      tails line up after appending l. */
  lemma AppendHeads<T>(g: seq<T>, c: seq<T>, r: seq<T>, l: seq<T>, target: seq<T>, lh: seq<T>, ls: seq<T>)
    requires g == c + r && target == lh + ls && c == lh && r + l == ls
    ensures g + l == target
  {
    assert g + l == c + (r + l);
  }

  /** Replacing the tail of a concatenation by an equal sequence. */
  lemma AppendTail<T>(g: seq<T>, a: seq<T>, b: seq<T>, b1: seq<T>, target: seq<T>)
    requires g == a + b && b == b1 && a + b1 == target
    ensures g == target
  {
  }

  lemma AppendAssoc<T>(a: seq<T>, b: seq<T>, c: seq<T>)
    ensures (a + b) + c == a + (b + c)
  {
  }

  /** A non-empty sequence is its front followed by its last element. */
  lemma FrontLast<T>(s: seq<T>)
    requires s != []
    ensures s == s[..|s| - 1] + [s[|s| - 1]]
  {
  }

  /** Dropping an empty tail. */
  lemma DropEmpty<T>(g: seq<T>, a: seq<T>, b: seq<T>, target: seq<T>)
    requires g == a + b && b == [] && a == target
    ensures g == target
  {
    assert a + b == a;
  }

  /** Indexing the left part of a concatenation. */
  lemma IndexLeft<T>(g: seq<T>, a: seq<T>, b: seq<T>, k: nat)
    requires g == a + b && k < |a|
    ensures |g| == |a| + |b| && g[k] == a[k]
  {
  }

  lemma {:induction false} PayloadAppend(a: seq<Event>, b: seq<Event>)
    ensures Payload(a + b) == Payload(a) + Payload(b)
  {
    if a == [] {
      assert a + b == b;
    } else {
      var t := a[1..];
      assert (a + b)[0] == a[0] && (a + b)[1..] == t + b;
      PayloadAppend(t, b);
      var h := if a[0].Data? then a[0].bytes else [];
      AppendHeads(Payload(a), h, Payload(t), Payload(b), Payload(a + b), h, Payload(t + b));
    }
  }

  lemma PayloadCons(bytes: seq<bv8>, t: seq<Event>)
    ensures Payload([Data(bytes)] + t) == bytes + Payload(t)
  {
    assert ([Data(bytes)] + t)[1..] == t;
  }

  lemma {:induction false} SizesAppend(a: seq<Event>, b: seq<Event>)
    ensures Sizes(a + b) == Sizes(a) + Sizes(b)
  {
    if a == [] {
      assert a + b == b;
    } else {
      var t := a[1..];
      assert (a + b)[0] == a[0] && (a + b)[1..] == t + b;
      SizesAppend(t, b);
      var h := if a[0].Data? then [|a[0].bytes|] else [];
      AppendHeads(Sizes(a), h, Sizes(t), Sizes(b), Sizes(a + b), h, Sizes(t + b));
    }
  }

  lemma {:induction false} CommandsAppend(a: seq<Event>, b: seq<Event>)
    ensures Commands(a + b) == Commands(a) + Commands(b)
  {
    if a == [] {
      assert a + b == b;
    } else {
      var t := a[1..];
      assert (a + b)[0] == a[0] && (a + b)[1..] == t + b;
      CommandsAppend(t, b);
      var h := if a[0].Cmd? then [a[0].op] else [];
      AppendHeads(Commands(a), h, Commands(t), Commands(b), Commands(a + b), h, Commands(t + b));
    }
  }

  lemma {:induction false} SumAppend(a: seq<nat>, b: seq<nat>)
    ensures Sum(a + b) == Sum(a) + Sum(b)
  {
    if a == [] {
      assert a + b == b;
    } else {
      assert (a + b)[1..] == a[1..] + b;
      SumAppend(a[1..], b);
    }
  }

  /** The total size of the Data events is the length of their payload. */
  lemma {:induction false} SumSizesIsPayloadLength(t: seq<Event>)
    ensures Sum(Sizes(t)) == |Payload(t)|
  {
    if t != [] {
      SumSizesIsPayloadLength(t[1..]);
      SumAppend(if t[0].Data? then [|t[0].bytes|] else [], Sizes(t[1..]));
    }
  }

  /** Closed transactions can be concatenated. */
  lemma {:induction false} BalancedAppend(a: seq<Event>, b: seq<Event>, open: bool)
    requires Balanced(a, open) && Balanced(b, false)
    ensures Balanced(a + b, open)
  {
    if a == [] {
      assert a + b == b;
    } else {
      assert (a + b)[0] == a[0];
      assert (a + b)[1..] == a[1..] + b;
      match a[0]
      case Begin => BalancedAppend(a[1..], b, true);
      case End => BalancedAppend(a[1..], b, false);
      case _ => BalancedAppend(a[1..], b, open);
    }
  }

  lemma {:induction false} UnframedCloses(mid: seq<Event>)
    requires Unframed(mid)
    ensures Balanced(mid + [End], true)
  {
    if mid != [] {
      assert (mid + [End])[1..] == mid[1..] + [End];
      assert Unframed(mid[1..]) by {
        forall k | 0 <= k < |mid| - 1 ensures !mid[1..][k].Begin? && !mid[1..][k].End? {
          assert mid[1..][k] == mid[k + 1];
        }
      }
      UnframedCloses(mid[1..]);
    }
  }

  /** One chip-select period is a balanced trace. */
  lemma TransactionBalanced(t: seq<Event>)
    requires Transaction(t)
    ensures Balanced(t, false)
  {
    var mid := t[1..|t| - 1];
    UnframedCloses(mid);
    assert t[1..] == mid + [End];
  }
}
