/**
  The host keyboard layout of the emulator: sixteen keys of the left-hand
  block of a QWERTY keyboard stand for the sixteen keys of the machine's hex
  pad. Every other key code decodes to the sentinel BAD_KEY.
 */
module KeyMap {

  /** An unsigned char, the result type of the decoder. */
  type Byte = x: int | 0 <= x < 256

  /** Number of keys on the machine's hex pad. */
  const PAD_KEYS: nat := 16

  /** The value the decoder returns for a key that is not on the pad. */
  const BAD_KEY: Byte := 0x42

  /** A host key code: one constructor per key the decoder lists, and
      `Other` for every other key code the host can report. */
  datatype Key =
    | Key1 | Key2 | Key3 | Key4
    | KeyQ | KeyW | KeyE | KeyR
    | KeyA | KeyS | KeyD | KeyF
    | KeyZ | KeyX | KeyC | KeyV
    | Other

  /** True of the sixteen keys that sit on the hex pad. */
  predicate IsPadKey(k: Key) {
    !k.Other?
  }

  /** Decodes a host key into its hex-pad index, or BAD_KEY. A result is a
      usable pad index exactly when the key is one of the sixteen pad keys. */
  function ToHex(k: Key): (h: Byte)
    ensures h < PAD_KEYS <==> IsPadKey(k)
    ensures !IsPadKey(k) <==> h == BAD_KEY
  {
    match k
    case Key1 => 0x1
    case Key2 => 0x2
    case Key3 => 0x3
    case Key4 => 0xC
    case KeyQ => 0x4
    case KeyW => 0x5
    case KeyE => 0x6
    case KeyR => 0xD
    case KeyA => 0x7
    case KeyS => 0x8
    case KeyD => 0x9
    case KeyF => 0xE
    case KeyZ => 0xA
    case KeyX => 0x0
    case KeyC => 0xB
    case KeyV => 0xF
    case Other => BAD_KEY
  }

  /** The pad layout read the other way round: the host key that stands for
      a given hex-pad index. Every index has one, so the decoder is onto
      0x0..0xF. */
  function FromHex(h: nat): (k: Key)
    requires h < PAD_KEYS
    ensures IsPadKey(k)
    ensures ToHex(k) == h
  {
    if h == 0x0 then KeyX
    else if h == 0x1 then Key1
    else if h == 0x2 then Key2
    else if h == 0x3 then Key3
    else if h == 0x4 then KeyQ
    else if h == 0x5 then KeyW
    else if h == 0x6 then KeyE
    else if h == 0x7 then KeyA
    else if h == 0x8 then KeyS
    else if h == 0x9 then KeyD
    else if h == 0xA then KeyZ
    else if h == 0xB then KeyC
    else if h == 0xC then Key4
    else if h == 0xD then KeyR
    else if h == 0xE then KeyF
    else KeyV
  }

  /** Decoding a pad key and reading the layout back gives the same key. */
  lemma FromToHex(k: Key)
    requires IsPadKey(k)
    ensures FromHex(ToHex(k)) == k
  {
  }

  /** No two pad keys share a hex-pad index. */
  lemma ToHexInjective(k1: Key, k2: Key)
    requires IsPadKey(k1) && IsPadKey(k2)
    requires ToHex(k1) == ToHex(k2)
    ensures k1 == k2
  {
  }

  /** The sixteen pad keys. */
  const PadKeys: set<Key> :=
    {Key1, Key2, Key3, Key4, KeyQ, KeyW, KeyE, KeyR,
     KeyA, KeyS, KeyD, KeyF, KeyZ, KeyX, KeyC, KeyV}

  /** The sixteen hex-pad indices. */
  const PadIndices: set<Byte> :=
    {0x0, 0x1, 0x2, 0x3, 0x4, 0x5, 0x6, 0x7,
     0x8, 0x9, 0xA, 0xB, 0xC, 0xD, 0xE, 0xF}

  /** The decoder maps the sixteen pad keys onto exactly the indices
      0x0..0xF, and no other key into that range. */
  lemma PadKeysCoverPad()
    ensures forall k :: k in PadKeys <==> IsPadKey(k)
    ensures (set k | k in PadKeys :: ToHex(k)) == PadIndices
    ensures forall k :: !IsPadKey(k) ==> ToHex(k) !in PadIndices
  {
  }
}
