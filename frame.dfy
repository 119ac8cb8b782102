/**
 * The frame codec of `WebSocketServer`: `seal` wraps a payload in the
 * unmasked text frame the server sends, `unseal` strips the client's mask
 * from a frame it receives. The layout is the base framing of section 5.2 of
 * RFC 6455 and the masking of section 5.3 of RFC 6455.
 */
module Frame {
  import opened Base

  /** First header byte of every sealed frame: FIN set, opcode 0x1 (text). */
  const FinText: byte := 0x81
  /** Bit 7 of the second header byte: the MASK bit. */
  const MaskBit: byte := 0x80
  /** Length selectors announcing a 16-bit and a 64-bit extended payload length. */
  const Extended16: byte := 126
  const Extended64: byte := 127

  /**
   * The only way `seal` can fail: its `pack('CCNN', $b1, 127, $length)` names
   * two `N` fields but supplies one value, so `pack` rejects the call with a
   * "too few arguments" error and no header exists.
   */
  datatype SealError = PackTooFewArguments

  // ---------------------------------------------------------------------------
  // Header arithmetic
  // ---------------------------------------------------------------------------

  /** Unsigned big-endian (network order) value of a byte string. */
  function BigEndian(s: seq<byte>): nat
  {
    if s == [] then 0 else BigEndian(s[..|s| - 1]) * 256 + s[|s| - 1] as nat
  }

  /** `pack('n', n)`: `n` as two bytes, most significant first. */
  function Pack16(n: nat): (r: seq<byte>)
    requires n < 0x1_0000
    ensures |r| == 2 && BigEndian(r) == n
  {
    var r := [(n / 256) as byte, (n % 256) as byte];
    assert r[..1] == [r[0]] && [r[0]][..0] == [];
    assert BigEndian(r[..1]) == n / 256;
    r
  }

  /** Whether the MASK bit of a frame's second byte is set. */
  predicate IsMasked(frame: seq<byte>)
  {
    |frame| >= 2 && frame[1] >= MaskBit
  }

  /** `$b & 127`: the low seven bits of a byte. */
  function LowSeven(b: byte): byte
  {
    b % 128
  }

  /**
   * The payload length a frame header declares, read the way section 5.2 of
   * RFC 6455 defines it; None when the frame is too short to hold the length
   * field. `unseal` never reads it: it is the reference `seal` is held to.
   */
  function DeclaredLength(frame: seq<byte>): Option<nat>
  {
    if |frame| < 2 then None
    else
      var selector := LowSeven(frame[1]);
      if selector < Extended16 then Some(selector as nat)
      else if selector == Extended16 then
        if |frame| < 4 then None else Some(BigEndian(frame[2..4]))
      else
        if |frame| < 10 then None else Some(BigEndian(frame[2..10]))
  }

  /** Size of the fixed header plus the extended length field, per RFC 6455. */
  function LengthFieldEnd(frame: seq<byte>): nat
    requires |frame| >= 2
  {
    var selector := LowSeven(frame[1]);
    if selector < Extended16 then 2 else if selector == Extended16 then 4 else 10
  }

  /**
   * How a client reads one unmasked server frame under RFC 6455: the frame
   * must not be masked and must hold exactly the declared number of payload
   * bytes after its length field.
   */
  function ServerPayload(frame: seq<byte>): Option<seq<byte>>
  {
    if |frame| < 2 || IsMasked(frame) then None
    else
      match DeclaredLength(frame)
      case None => None
      case Some(n) =>
        var at := LengthFieldEnd(frame);
        if at + n == |frame| then Some(frame[at..]) else None
  }

  // ---------------------------------------------------------------------------
  // seal
  // ---------------------------------------------------------------------------

  /**
   * The header `seal` packs for a payload of `n` bytes: the 7-bit inline
   * length up to 125, then 126 and a 16-bit length; the 64-bit branch fails.
   */
  function Header(n: nat): (r: Result<seq<byte>, SealError>)
    ensures r.Ok? <==> n < 0x1_0000
    ensures r.Ok? ==> |r.value| == (if n <= 125 then 2 else 4)
    ensures r.Ok? ==> r.value[0] == FinText && r.value[1] < MaskBit
  {
    if n <= 125 then Ok([FinText, n as byte])
    else if n < 0x1_0000 then Ok([FinText, Extended16] + Pack16(n))
    else Err(PackTooFewArguments)
  }

  /**
   * `seal`: an unfragmented, unmasked text frame carrying `payload`. It
   * succeeds exactly below 65536 bytes, and then a client reading the frame
   * by RFC 6455 gets `payload` back.
   */
  function Seal(payload: seq<byte>): (r: Result<seq<byte>, SealError>)
    ensures r.Ok? <==> |payload| < 0x1_0000
    ensures r.Ok? ==> |r.value| >= 2 + |payload|
    ensures r.Ok? ==> r.value[0] == FinText && !IsMasked(r.value)
    ensures r.Ok? ==> ServerPayload(r.value) == Some(payload)
  {
    var header := Header(|payload|);
    if header.Err? then Err(header.error)
    else
      var frame := header.value + payload;
      assert |header.value| == 4 ==> frame[2..4] == header.value[2..4];
      Ok(frame)
  }

  /** The two length encodings `seal` emits, byte by byte. */
  lemma SealLengthEncoding(payload: seq<byte>)
    requires |payload| < 0x1_0000
    ensures var frame := Seal(payload).value;
      && (|payload| <= 125 ==> |frame| == 2 + |payload| && frame[1] as nat == |payload| && frame[2..] == payload)
      && (125 < |payload| ==>
            && |frame| == 4 + |payload| && frame[1] == Extended16
            && frame[2] as nat * 256 + frame[3] as nat == |payload| && frame[4..] == payload)
  {
    var frame := Seal(payload).value;
    if 125 < |payload| {
      var field := Pack16(|payload|);
      assert frame == [FinText, Extended16] + field + payload;
      assert BigEndian(field[..1]) == field[0] as nat;
    }
  }

  // ---------------------------------------------------------------------------
  // unseal
  // ---------------------------------------------------------------------------

  /**
   * The low seven bits of the second byte. PHP reads a missing byte as the
   * empty string, whose `ord` is 0, so a frame under two bytes selects 0.
   */
  function Selector(frame: seq<byte>): byte
  {
    if |frame| < 2 then 0 else LowSeven(frame[1])
  }

  /** Where `unseal` takes the mask key and where the masked data start. */
  function Offsets(selector: byte): (r: (nat, nat))
    ensures r.1 == r.0 + 4
  {
    if selector == Extended16 then (4, 8)
    else if selector == Extended64 then (10, 14)
    else (2, 6)
  }

  /** `substr($s, $start, $n)`: empty once `start` passes the end. */
  function Substr(s: seq<byte>, start: nat, n: nat): (r: seq<byte>)
  {
    if |s| <= start then [] else if |s| <= start + n then s[start..] else s[start..start + n]
  }

  function Pow2(n: nat): (p: nat)
    ensures p >= 1
  {
    if n == 0 then 1 else 2 * Pow2(n - 1)
  }

  /** The low `width` bits of the bitwise exclusive or of `a` and `b`. */
  function XorBits(a: nat, b: nat, width: nat): (r: nat)
    ensures r < Pow2(width)
  {
    if width == 0 then 0
    else 2 * XorBits(a / 2, b / 2, width - 1) + (if a % 2 == b % 2 then 0 else 1)
  }

  /** PHP's `^` on two one-byte strings. */
  function Xor(a: byte, b: byte): byte
  {
    assert Pow2(8) == 256 by {
      assert Pow2(4) == 16;
    }
    XorBits(a as nat, b as nat, 8) as byte
  }

  /** Exclusive or with the same operand twice gives every value of `width` bits back. */
  lemma {:induction false} XorBitsInvolution(a: nat, k: nat, width: nat)
    requires a < Pow2(width)
    ensures XorBits(XorBits(a, k, width), k, width) == a
  {
    if width > 0 {
      var c := XorBits(a, k, width);
      var half := XorBits(a / 2, k / 2, width - 1);
      assert c / 2 == half && c % 2 == (if a % 2 == k % 2 then 0 else 1);
      XorBitsInvolution(a / 2, k / 2, width - 1);
    }
  }

  /** Exclusive or with the same byte twice gives the byte back. */
  lemma XorInvolution(a: byte, k: byte)
    ensures Xor(Xor(a, k), k) == a
  {
    assert Pow2(8) == 256 by {
      assert Pow2(4) == 16;
    }
    XorBitsInvolution(a as nat, k as nat, 8);
  }

  /** Data byte `i` combined with key byte `i mod 4`, as section 5.3 of RFC 6455 defines masking. */
  function Mask(data: seq<byte>, key: seq<byte>): (r: seq<byte>)
    requires |key| == 4
  {
    seq(|data|, i requires 0 <= i < |data| => Xor(data[i], key[i % 4]))
  }

  /** What `unseal` returns for `frame`. */
  function Unsealed(frame: seq<byte>): (r: seq<byte>)
  {
    var (maskAt, dataAt) := Offsets(Selector(frame));
    if |frame| <= dataAt then [] else Mask(frame[dataAt..], frame[maskAt..maskAt + 4])
  }

  /**
   * `unseal`: the mask key and data offsets follow from the length selector
   * alone; the declared length is ignored and every byte after the data
   * offset is unmasked.
   */
  method Unseal(frame: seq<byte>) returns (payload: seq<byte>)
    ensures payload == Unsealed(frame)
    ensures |payload| == if |frame| <= Offsets(Selector(frame)).1 then 0 else |frame| - Offsets(Selector(frame)).1
  {
    var (maskAt, dataAt) := Offsets(Selector(frame));
    var masks := Substr(frame, maskAt, 4);
    var data := Substr(frame, dataAt, |frame|);
    assert |data| > 0 ==> |masks| == 4;
    payload := [];
    var i := 0;
    while i < |data|
      invariant 0 <= i <= |data|
      invariant |payload| == i
      invariant forall j :: 0 <= j < i ==> payload[j] == Xor(data[j], masks[j % 4])
    {
      payload := payload + [Xor(data[i], masks[i % 4])];
      i := i + 1;
    }
  }

  /** Masking twice with the same key gives the data back. */
  lemma MaskInvolution(data: seq<byte>, key: seq<byte>)
    requires |key| == 4
    ensures Mask(Mask(data, key), key) == data
  {
    var once := Mask(data, key);
    forall i | 0 <= i < |data|
      ensures Mask(once, key)[i] == data[i]
    {
      assert once[i] == Xor(data[i], key[i % 4]);
      XorInvolution(data[i], key[i % 4]);
    }
  }

  /**
   * `unseal` reads only the low seven bits of byte 1: neither byte 0 (FIN,
   * opcode) nor the MASK bit changes its result.
   */
  lemma UnsealIgnoresFinOpcodeAndMaskBit(frame: seq<byte>, b0: byte, b1: byte)
    requires |frame| >= 2 && LowSeven(b1) == LowSeven(frame[1])
    ensures Unsealed(frame[0 := b0][1 := b1]) == Unsealed(frame)
  {
    var other := frame[0 := b0][1 := b1];
    assert Selector(other) == Selector(frame);
    var (maskAt, dataAt) := Offsets(Selector(frame));
    if dataAt < |frame| {
      assert other[dataAt..] == frame[dataAt..];
      assert other[maskAt..maskAt + 4] == frame[maskAt..maskAt + 4];
    }
  }

  /**
   * The frame a client sends for `payload` under mask key `key`: the header
   * `seal` would write, with the MASK bit set, then the key, then the
   * masked payload.
   */
  function ClientFrame(payload: seq<byte>, key: seq<byte>): (frame: seq<byte>)
    requires |payload| < 0x1_0000 && |key| == 4
  {
    var header := Header(|payload|).value;
    [header[0], header[1] + MaskBit] + header[2..] + key + Mask(payload, key)
  }

  /**
   * Offsets agree between the two directions: on a masked frame built from
   * `seal`'s header, `unseal` takes the mask key right after that header and
   * the data right after the key, so it returns the payload.
   */
  lemma UnsealClientFrame(payload: seq<byte>, key: seq<byte>)
    requires |payload| < 0x1_0000 && |key| == 4
    ensures IsMasked(ClientFrame(payload, key))
    ensures DeclaredLength(ClientFrame(payload, key)) == Some(|payload|)
    ensures Unsealed(ClientFrame(payload, key)) == payload
  {
    var header := Header(|payload|).value;
    var frame := ClientFrame(payload, key);
    var headerSize := |header|;
    assert LowSeven(header[1] + MaskBit) == header[1];
    assert frame[..headerSize] == [header[0], header[1] + MaskBit] + header[2..];
    assert frame[headerSize..headerSize + 4] == key;
    assert frame[headerSize + 4..] == Mask(payload, key);
    if 125 < |payload| {
      assert frame[2..4] == header[2..4] == Pack16(|payload|);
    }
    assert Offsets(Selector(frame)) == (headerSize, headerSize + 4);
    MaskInvolution(payload, key);
  }
}
