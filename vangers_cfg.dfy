/**
 * The text cursor and the cipher of the Vangers configuration reader
 * (`sicher_cfg_reader`, `sicher_cfg_writer`, `xzip_crypt`).
 *
 * A configuration file is a byte string. Files whose first byte is 0 are
 * encrypted with an xorshift-style keystream and prefixed by a compression
 * header; everything else is plain text read through a cursor `pos` that
 * never passes `endPos`.
 */
module VangersCfg {
  import opened Common

  // Constants of the xzip container. They live in a header that is not part
  // of this model, so they are left uninterpreted: every property below holds
  // whatever their values are.
  const KeyPos: nat
  const KeyMultiplier: bv32
  const KeyBinOr: bv32
  const EncBegPos: nat
  const LabelPos: nat
  const DecompSizePos: nat
  const AddDecompSize: nat
  const CompBegPos: nat

  // Byte-buffer decoding and zlib inflation are foreign to this model:
  // `raw_bytes_to_num<std::uint32_t>`, `raw_bytes_to_num<std::int16_t>` and
  // `raw_uncompress` (None stands for `raw_uncompress_error`).
  const RawBytesToUint32: (seq<Byte>, nat) -> bv32
  const RawBytesToInt16: (seq<Byte>, nat) -> bv16
  const RawUncompress: (nat, seq<Byte>) -> Option<seq<Byte>>

  const WinDirSeparator: Byte := 0x5C   // '\\'
  const UnixDirSeparator: Byte := 0x2F  // '/'
  const Quote: Byte := 0x22             // '"'
  const Space: Byte := 0x20
  const Tab: Byte := 0x09
  const Nul: Byte := 0

  /** `std::iswspace` in the "C" locale: space, \t, \n, \v, \f, \r. */
  predicate IsSpace(c: Byte) {
    c == Space || (0x09 <= c <= 0x0D)
  }

  /** A quoted value ends at a quote or at whitespace other than a blank or a tab. */
  predicate EndsQuotedValue(c: Byte) {
    c == Quote || (IsSpace(c) && c != Space && c != Tab)
  }

  predicate IsUpper(c: Byte) {
    0x41 <= c <= 0x5A
  }

  /** ASCII lower-casing, as `boost::algorithm::to_lower` does in the "C" locale. */
  function ToLower(c: Byte): (r: Byte)
    ensures !IsUpper(r)
    ensures IsUpper(c) ==> r == c + 0x20
    ensures !IsUpper(c) ==> r == c
  {
    if IsUpper(c) then c + 0x20 else c
  }

  // ---------------------------------------------------------------------
  // xzip_crypt

  /**
   * `xzip_crypt::crt`: one keystream step on an unsigned 32-bit value. The
   * source stores the result back into its reference argument and returns
   * the same value, so one function models both.
   */
  function Crt(val: bv32): (r: bv32)
    ensures r < 0x8000_0000
  {
    var v1 := val ^ (val >> 3);
    var v2 := v1 ^ (v1 << 28);
    v2 & 0x7FFF_FFFF
  }

  /** The key after `n` steps of `Crt`. */
  function KeyIterate(key: bv32, n: nat): bv32
  {
    if n == 0 then key else Crt(KeyIterate(key, n - 1))
  }

  function LowByte(v: bv32): Byte
  {
    (v & 0xFF) as Byte
  }

  /** Byte `i` is XOR-ed with the low byte of the (i+1)-th keystream value. */
  function XorKeystream(s: seq<Byte>, key: bv32): (r: seq<Byte>)
    ensures |r| == |s|
  {
    seq(|s|, i requires 0 <= i < |s| => s[i] ^ LowByte(KeyIterate(key, i + 1)))
  }

  /** The initial key: the stored word times the multiplier (mod 2^32), with `bin_or` set. */
  function InitialKey(s: seq<Byte>): (k: bv32)
    ensures k & KeyBinOr == KeyBinOr
  {
    (RawBytesToUint32(s, KeyPos) * KeyMultiplier) | KeyBinOr
  }

  /** What `decrypt` leaves in `m_str`. */
  function Decrypted(s: seq<Byte>): (r: seq<Byte>)
    ensures |r| == if EncBegPos <= |s| then |s| - EncBegPos else 0
    ensures forall i :: 0 <= i < |r| ==>
      r[i] == s[EncBegPos + i] ^ LowByte(KeyIterate(InitialKey(s), i + 1))
  {
    XorKeystream(Drop(s, EncBegPos), InitialKey(s))
  }

  /** Every keystream value after the first step fits in 31 bits. */
  lemma {:induction false} KeyIterateBelow31Bits(key: bv32, n: nat)
    requires n >= 1
    ensures KeyIterate(key, n) < 0x8000_0000
  {
    assert KeyIterate(key, n) == Crt(KeyIterate(key, n - 1));
  }

  /** The cipher is an involution: applying the same keystream twice restores the text. */
  lemma XorKeystreamInvolution(s: seq<Byte>, key: bv32)
    ensures XorKeystream(XorKeystream(s, key), key) == s
  {
    var t := XorKeystream(XorKeystream(s, key), key);
    forall i | 0 <= i < |s| ensures t[i] == s[i] {
      var b := LowByte(KeyIterate(key, i + 1));
      assert t[i] == (s[i] ^ b) ^ b;
    }
  }

  /**
   * How the constructor opens a file (corrected end position, see
   * `AsWrittenEndPos`). The dispatch tests `*pos`, which on an empty string
   * is the terminating NUL.
   */
  function Opened(s: seq<Byte>): (r: Result<seq<Byte>, CfgError>)
    ensures (s != [] && s[0] != Nul) ==> r == Ok(s)
    ensures r.Err? ==> r.error == DecompressFailed
  {
    if s != [] && s[0] != Nul then Ok(s)
    else Decompressed(Decrypted(s))
  }

  /** What `decompress` leaves in `m_str`: the prefix is stripped, then inflated when the label is non-zero. */
  function Decompressed(s: seq<Byte>): (r: Result<seq<Byte>, CfgError>)
    ensures RawBytesToInt16(s, LabelPos) == 0 ==> r == Ok(Drop(s, CompBegPos))
    ensures RawBytesToInt16(s, LabelPos) != 0 ==>
      (r.Ok? <==> RawUncompress(DecompressedSize(s), Drop(s, CompBegPos)).Some?)
  {
    if RawBytesToInt16(s, LabelPos) == 0 then Ok(Drop(s, CompBegPos))
    else match RawUncompress(DecompressedSize(s), Drop(s, CompBegPos))
      case None => Err(DecompressFailed)
      case Some(t) => Ok(t)
  }

  function DecompressedSize(s: seq<Byte>): nat
  {
    RawBytesToUint32(s, DecompSizePos) as nat + AddDecompSize
  }

  /**
   * The end position as the source leaves it: set once before decrypting and
   * re-set only when the data was inflated.
   */
  function AsWrittenEndPos(s: seq<Byte>): nat
  {
    if s != [] && s[0] != Nul then |s|
    else if RawBytesToInt16(Decrypted(s), LabelPos) == 0 then |s|
    else match Decompressed(Decrypted(s))
      case Ok(t) => |t|
      case Err(_) => |s|
  }

  /**
   * An encrypted file whose label is 0 keeps the stale end position: it lies
   * `EncBegPos + CompBegPos` bytes past the end of the stripped text (or
   * beyond it, when the text was shorter than the headers).
   */
  lemma StaleEndPosOnUncompressed(s: seq<Byte>)
    requires s == [] || s[0] == Nul
    requires RawBytesToInt16(Decrypted(s), LabelPos) == 0
    requires EncBegPos + CompBegPos > 0
    requires |s| > 0
    ensures Opened(s).Ok?
    ensures AsWrittenEndPos(s) > |Opened(s).value|
  {
  }

  /** In every other case the two agree. */
  lemma AsWrittenEndPosElsewhere(s: seq<Byte>)
    requires Opened(s).Ok?
    requires (s != [] && s[0] != Nul) || RawBytesToInt16(Decrypted(s), LabelPos) != 0
    ensures AsWrittenEndPos(s) == |Opened(s).value|
  {
  }

  datatype CfgError = DecompressFailed | KeyNotFound | LengthError

  // ---------------------------------------------------------------------
  // fix_game_lst_path

  /** Lower-cases a game.lst path and turns Windows separators into Unix ones. */
  function FixGameLstPath(path: seq<Byte>): (r: seq<Byte>)
    ensures |r| == |path|
    ensures forall i :: 0 <= i < |r| ==> r[i] != WinDirSeparator && !IsUpper(r[i])
    ensures forall i :: 0 <= i < |r| ==>
      r[i] == (if path[i] == WinDirSeparator then UnixDirSeparator else ToLower(path[i]))
  {
    seq(|path|, i requires 0 <= i < |path| =>
      var c := ToLower(path[i]);
      if c == WinDirSeparator then UnixDirSeparator else c)
  }

  lemma FixGameLstPathIdempotent(path: seq<Byte>)
    ensures FixGameLstPath(FixGameLstPath(path)) == FixGameLstPath(path)
  {
  }

  // ---------------------------------------------------------------------
  // Key search

  /** The byte `*p` reads: the string's own byte, or the terminating NUL at (or past) its end. */
  function CharAt(s: seq<Byte>, i: int): Byte
  {
    if 0 <= i < |s| then s[i] else Nul
  }

  /**
   * `*(value_name_beg - 1)`: at index 0 the source reads one byte before the
   * buffer; the model takes that byte as non-whitespace.
   */
  function CharBefore(s: seq<Byte>, i: nat): Byte
  {
    if 0 < i <= |s| then s[i - 1] else Nul
  }

  /** The first non-whitespace index in `[from, end)`, or `end`: where `skip_spaces_until_value` stops. */
  function FirstNonSpace(s: seq<Byte>, from: nat, end: nat): (b: nat)
    requires from <= end <= |s|
    ensures from <= b <= end
    ensures forall i :: from <= i < b ==> IsSpace(s[i])
    ensures b == end || !IsSpace(s[b])
    decreases end - from
  {
    if from == end || !IsSpace(s[from]) then from else FirstNonSpace(s, from + 1, end)
  }

  /** Any index with the two properties of `FirstNonSpace` is that index. */
  lemma FirstNonSpaceUnique(s: seq<Byte>, from: nat, end: nat, p: nat)
    requires from <= p <= end <= |s|
    requires forall i :: from <= i < p ==> IsSpace(s[i])
    requires p == end || !IsSpace(s[p])
    ensures p == FirstNonSpace(s, from, end)
  {
  }

  /** Index of the first NUL at or after `from`, or `|s|` (the terminator). */
  function FirstNul(s: seq<Byte>, from: nat): (n: nat)
    requires from <= |s|
    ensures from <= n <= |s|
    ensures forall i :: from <= i < n ==> s[i] != Nul
    ensures n < |s| ==> s[n] == Nul
    decreases |s| - from
  {
    if from == |s| || s[from] == Nul then from else FirstNul(s, from + 1)
  }

  predicate OccursAt(s: seq<Byte>, key: seq<Byte>, b: nat)
  {
    b + |key| <= |s| && s[b..b + |key|] == key
  }

  /** `std::strstr(s + from, key)`: the first occurrence inside the C string that starts at `from`. */
  function StrStr(s: seq<Byte>, from: nat, key: seq<Byte>): (r: Option<nat>)
    requires from <= |s|
    ensures r.Some? ==>
      from <= r.value && r.value + |key| <= FirstNul(s, from) && OccursAt(s, key, r.value)
    ensures r.Some? ==> forall b :: from <= b < r.value ==> !OccursAt(s, key, b)
    ensures r.None? ==> forall b :: from <= b && b + |key| <= FirstNul(s, from) ==> !OccursAt(s, key, b)
  {
    StrStrFrom(s, from, from, key)
  }

  function StrStrFrom(s: seq<Byte>, from: nat, b: nat, key: seq<Byte>): (r: Option<nat>)
    requires from <= b <= |s| && from <= |s|
    requires forall c :: from <= c < b ==> !OccursAt(s, key, c)
    ensures r.Some? ==>
      b <= r.value && r.value + |key| <= FirstNul(s, from) && OccursAt(s, key, r.value)
    ensures r.Some? ==> forall c :: from <= c < r.value ==> !OccursAt(s, key, c)
    ensures r.None? ==> forall c :: from <= c && c + |key| <= FirstNul(s, from) ==> !OccursAt(s, key, c)
    decreases |s| - b
  {
    if b + |key| > FirstNul(s, from) then None
    else if OccursAt(s, key, b) then Some(b)
    else StrStrFrom(s, from, b + 1, key)
  }

  /** A key occurrence is accepted when whitespace sits just before and just after it. */
  predicate Delimited(s: seq<Byte>, b: nat, e: nat)
  {
    IsSpace(CharBefore(s, b)) && IsSpace(CharAt(s, e))
  }

  /**
   * `get_pos_of_next_value`: the index just past the first accepted key
   * occurrence found by a scan that resumes after each rejected match.
   */
  function NextValue(s: seq<Byte>, endPos: nat, key: seq<Byte>, searchPos: nat): (r: Option<nat>)
    requires searchPos <= |s| && |key| > 0
    decreases |s| - searchPos
  {
    match StrStr(s, searchPos, key)
    case None => None
    case Some(b) =>
      if b + |key| > endPos then None
      else if Delimited(s, b, b + |key|) then Some(b + |key|)
      else NextValue(s, endPos, key, b + |key|)
  }

  /** One step of `NextValue`: a result comes from the first occurrence, accepted or skipped. */
  lemma NextValueStep(s: seq<Byte>, endPos: nat, key: seq<Byte>, searchPos: nat)
    requires searchPos <= |s| && |key| > 0
    requires NextValue(s, endPos, key, searchPos).Some?
    ensures StrStr(s, searchPos, key).Some?
    ensures var b := StrStr(s, searchPos, key).value;
      searchPos <= b && b + |key| <= endPos && b + |key| <= |s| && OccursAt(s, key, b)
      && (Delimited(s, b, b + |key|) ==> NextValue(s, endPos, key, searchPos) == Some(b + |key|))
      && (!Delimited(s, b, b + |key|) ==> NextValue(s, endPos, key, searchPos) == NextValue(s, endPos, key, b + |key|))
  {
  }

  /** Soundness: a returned position ends a whitespace-delimited key occurrence before `endPos`. */
  lemma {:induction false} NextValueSound(s: seq<Byte>, endPos: nat, key: seq<Byte>, searchPos: nat)
    requires searchPos <= |s| && |key| > 0
    requires NextValue(s, endPos, key, searchPos).Some?
    ensures ValueAfterKey(s, endPos, key, searchPos, NextValue(s, endPos, key, searchPos).value)
    decreases |s| - searchPos
  {
    NextValueStep(s, endPos, key, searchPos);
    var b := StrStr(s, searchPos, key).value;
    if !Delimited(s, b, b + |key|) {
      NextValueSound(s, endPos, key, b + |key|);
    }
  }

  /** `e` ends a whitespace-delimited occurrence of `key` that starts at or after `from` and ends by `endPos`. */
  predicate ValueAfterKey(s: seq<Byte>, endPos: nat, key: seq<Byte>, from: nat, e: nat)
  {
    from + |key| <= e <= endPos && e <= |s| && OccursAt(s, key, e - |key|) && Delimited(s, e - |key|, e)
  }

  /** If the first occurrence after `searchPos` is delimited and before `endPos`, it is the answer. */
  lemma FirstOccurrenceAccepted(s: seq<Byte>, endPos: nat, key: seq<Byte>, searchPos: nat, b: nat)
    requires searchPos <= |s| && |key| > 0
    requires searchPos <= b && b + |key| <= FirstNul(s, searchPos) && OccursAt(s, key, b)
    requires forall c :: searchPos <= c < b ==> !OccursAt(s, key, c)
    requires b + |key| <= endPos && Delimited(s, b, b + |key|)
    ensures NextValue(s, endPos, key, searchPos) == Some(b + |key|)
  {
    var r := StrStr(s, searchPos, key);
    assert r.Some? && r.value == b;
  }

  /** Without any occurrence inside the C string there is no value. */
  lemma NoOccurrenceNoValue(s: seq<Byte>, endPos: nat, key: seq<Byte>, searchPos: nat)
    requires searchPos <= |s| && |key| > 0
    requires forall c :: searchPos <= c && c + |key| <= FirstNul(s, searchPos) ==> !OccursAt(s, key, c)
    ensures NextValue(s, endPos, key, searchPos).None?
  {
    var r := StrStr(s, searchPos, key);
    assert r.None?;
  }

  // ---------------------------------------------------------------------
  // sicher_cfg_reader

  class SicherCfgReader {
    var mStr: seq<Byte>
    var pos: nat
    var endPos: nat

    ghost predicate Valid()
      reads this
    {
      pos <= endPos <= |mStr|
    }

    /** The member initialisers: `pos` at the first byte, `end_pos` at the terminator. */
    constructor Raw(s: seq<Byte>)
      ensures Valid()
      ensures mStr == s && pos == 0 && endPos == |s|
    {
      mStr := s;
      pos := 0;
      endPos := |s|;
    }

    /**
     * `decrypt`: strips the first `EncBegPos` bytes and XORs the rest with the
     * keystream. The model re-sets `endPos` with the string (see `AsWrittenEndPos`).
     */
    method Decrypt()
      modifies this
      ensures Valid()
      ensures mStr == Decrypted(old(mStr)) && pos == 0 && endPos == |mStr|
    {
      var key := InitialKey(mStr);
      var text := Drop(mStr, EncBegPos);
      ghost var key0 := key;
      var out: seq<Byte> := [];
      var i := 0;
      while i < |text|
        invariant 0 <= i <= |text|
        invariant key == KeyIterate(key0, i)
        invariant |out| == i
        invariant forall j :: 0 <= j < i ==> out[j] == text[j] ^ LowByte(KeyIterate(key0, j + 1))
      {
        key := Crt(key);
        out := out + [text[i] ^ LowByte(key)];
        i := i + 1;
      }
      mStr := out;
      pos := 0;
      endPos := |mStr|;
    }

    /** `decompress`; false stands for the `runtime_error` it throws when inflation fails. */
    method Decompress() returns (ok: bool)
      modifies this
      ensures Valid()
      ensures ok == Decompressed(old(mStr)).Ok?
      ensures ok ==> mStr == Decompressed(old(mStr)).value && pos == 0 && endPos == |mStr|
    {
      var lbl := RawBytesToInt16(mStr, LabelPos);
      var decompressedSize := DecompressedSize(mStr);
      var stripped := Drop(mStr, CompBegPos);
      mStr := stripped;
      pos := 0;
      endPos := |mStr|;
      if lbl != 0 {
        match RawUncompress(decompressedSize, stripped)
        case None =>
          return false;
        case Some(t) =>
          mStr := t;
          pos := 0;
          endPos := |mStr|;
      }
      return true;
    }

    /** The constructor: decrypts and decompresses exactly when the first byte is 0. */
    static method Open(s: seq<Byte>) returns (r: Result<SicherCfgReader, CfgError>)
      ensures r.Ok? <==> Opened(s).Ok?
      ensures r.Ok? ==>
        fresh(r.value) && r.value.Valid() && r.value.mStr == Opened(s).value
        && r.value.pos == 0 && r.value.endPos == |r.value.mStr|
      ensures r.Err? ==> r.error == DecompressFailed
    {
      var reader := new SicherCfgReader.Raw(s);
      if CharAt(reader.mStr, reader.pos) == Nul {
        reader.Decrypt();
        var ok := reader.Decompress();
        if !ok {
          return Err(DecompressFailed);
        }
      }
      return Ok(reader);
    }

    /** The loop shape the cursor methods share: advance `pos` up to the first byte satisfying `stop`. */
    method MoveUntil(stop: Byte -> bool)
      requires Valid()
      modifies this`pos
      ensures Valid()
      ensures old(pos) <= pos <= endPos
      ensures forall i :: old(pos) <= i < pos ==> !stop(mStr[i])
      ensures pos == endPos || stop(mStr[pos])
    {
      while pos < endPos
        invariant old(pos) <= pos <= endPos
        invariant forall i :: old(pos) <= i < pos ==> !stop(mStr[i])
      {
        if stop(mStr[pos]) {
          break;
        }
        pos := pos + 1;
      }
    }

    /** `skip_spaces_until_value<std::string>`. */
    method SkipSpacesUntilValue()
      requires Valid()
      modifies this`pos
      ensures Valid()
      ensures old(pos) <= pos <= endPos
      ensures forall i :: old(pos) <= i < pos ==> IsSpace(mStr[i])
      ensures pos == endPos || !IsSpace(mStr[pos])
    {
      MoveUntil(c => !IsSpace(c));
    }

    /**
     * `move_pos_after_str_value`, as written: the quoted branch tests the
     * opening quote itself first, so it never advances.
     */
    method MovePosAfterStrValue()
      requires Valid()
      modifies this`pos
      ensures Valid()
      ensures CharAt(mStr, old(pos)) == Quote ==> pos == old(pos)
      ensures CharAt(mStr, old(pos)) != Quote ==>
        old(pos) <= pos <= endPos
        && (forall i :: old(pos) <= i < pos ==> !IsSpace(mStr[i]))
        && (pos == endPos || IsSpace(mStr[pos]))
    {
      if CharAt(mStr, pos) == Quote {
        MoveUntil(EndsQuotedValue);
      } else {
        MoveUntil(IsSpace);
      }
    }

    /**
     * `get_cur_pos_value_str<std::string>`. A quoted value makes the length
     * `pos - value_beg_pos` equal to -1, which the `std::string` constructor
     * receives as `size_t(-1)` and rejects with `std::length_error`.
     */
    method GetCurPosValueStr() returns (r: Result<seq<Byte>, CfgError>)
      requires Valid()
      modifies this`pos
      ensures Valid() && old(pos) <= pos
      ensures r.Err? ==> r.error == LengthError && CharAt(mStr, pos) == Quote
      ensures (pos < endPos && mStr[pos] == Quote) ==> r.Err?
      ensures r.Ok? ==>
        |r.value| <= pos && r.value == mStr[pos - |r.value|..pos]
        && forall i :: 0 <= i < |r.value| ==> !IsSpace(r.value[i])
      ensures var b := FirstNonSpace(mStr, old(pos), endPos);
        (r.Err? <==> CharAt(mStr, b) == Quote)
        && (r.Ok? ==> pos - |r.value| == b && pos <= endPos && (pos == endPos || IsSpace(mStr[pos])))
    {
      SkipSpacesUntilValue();
      FirstNonSpaceUnique(mStr, old(pos), endPos, pos);
      var valueBeg := pos;
      if CharAt(mStr, pos) == Quote {
        valueBeg := pos + 1;
      }
      MovePosAfterStrValue();
      if pos < valueBeg {
        return Err(LengthError);
      }
      return Ok(mStr[valueBeg..pos]);
    }

    /**
     * `get_cur_pos_value_str<std::string>` as evidently intended: the quoted
     * branch of `move_pos_after_str_value` starts scanning after the opening
     * quote, so a quoted value is read up to its closing quote or line end.
     */
    method ReadStrValue() returns (value: seq<Byte>)
      requires Valid()
      modifies this`pos
      ensures Valid()
      ensures var b := FirstNonSpace(mStr, old(pos), endPos);
        var quoted := b < endPos && mStr[b] == Quote;
        var beg := if quoted then b + 1 else b;
        beg <= pos <= endPos && value == mStr[beg..pos]
        && (quoted ==> (forall i :: 0 <= i < |value| ==> !EndsQuotedValue(value[i]))
                       && (pos == endPos || EndsQuotedValue(mStr[pos])))
        && (!quoted ==> (forall i :: 0 <= i < |value| ==> !IsSpace(value[i]))
                        && (pos == endPos || IsSpace(mStr[pos])))
      ensures var b := FirstNonSpace(mStr, old(pos), endPos);
        b < endPos && mStr[b] == Quote ==> Quote !in value
    {
      SkipSpacesUntilValue();
      FirstNonSpaceUnique(mStr, old(pos), endPos, pos);
      var valueBeg := pos;
      if pos < endPos && mStr[pos] == Quote {
        pos := pos + 1;
        valueBeg := pos;
        MoveUntil(EndsQuotedValue);
        value := mStr[valueBeg..pos];
        assert forall i :: 0 <= i < |value| ==> !EndsQuotedValue(value[i]) by {
          forall i | 0 <= i < |value| ensures !EndsQuotedValue(value[i]) {
            assert value[i] == mStr[valueBeg + i];
          }
        }
        assert EndsQuotedValue(Quote);
      } else {
        MoveUntil(IsSpace);
        value := mStr[valueBeg..pos];
        assert forall i :: 0 <= i < |value| ==> !IsSpace(value[i]) by {
          forall i | 0 <= i < |value| ensures !IsSpace(value[i]) {
            assert value[i] == mStr[valueBeg + i];
          }
        }
      }
    }

    /** `get_pos_of_next_value`: never moves `pos`. */
    method GetPosOfNextValue(key: seq<Byte>) returns (r: Option<nat>)
      requires Valid() && |key| > 0
      ensures r == NextValue(mStr, endPos, key, pos)
    {
      var searchPos := pos;
      while true
        invariant searchPos <= |mStr|
        invariant NextValue(mStr, endPos, key, searchPos) == NextValue(mStr, endPos, key, pos)
        decreases |mStr| - searchPos
      {
        var found := StrStr(mStr, searchPos, key);
        if found.None? {
          return None;
        }
        var valueNameEnd := found.value + |key|;
        if valueNameEnd > endPos {
          return None;
        }
        if IsSpace(CharBefore(mStr, found.value)) && IsSpace(CharAt(mStr, valueNameEnd)) {
          return Some(valueNameEnd);
        }
        searchPos := valueNameEnd;
      }
    }

    /** `move_pos_to_value`; `KeyNotFound` stands for the `runtime_error`. */
    method MovePosToValue(key: seq<Byte>) returns (r: Result<(), CfgError>)
      requires Valid() && |key| > 0
      modifies this`pos
      ensures Valid()
      ensures r.Ok? <==> NextValue(mStr, endPos, key, old(pos)).Some?
      ensures r.Ok? ==> pos == NextValue(mStr, endPos, key, old(pos)).value && old(pos) < pos
      ensures r.Err? ==> r.error == KeyNotFound
    {
      var next := GetPosOfNextValue(key);
      if next.None? {
        return Err(KeyNotFound);
      }
      NextValueSound(mStr, endPos, key, pos);
      pos := next.value;
      return Ok(());
    }

    /** `check_next_value`. */
    method CheckNextValue(key: seq<Byte>) returns (b: bool)
      requires Valid() && |key| > 0
      ensures b <==> NextValue(mStr, endPos, key, pos).Some?
    {
      var next := GetPosOfNextValue(key);
      b := next.Some?;
    }
  }

  // ---------------------------------------------------------------------
  // sicher_cfg_writer

  /** A reader extended with an output string and the start of the not-yet-copied segment. */
  class SicherCfgWriter {
    const reader: SicherCfgReader
    var outStr: seq<Byte>
    var nonCopiedPos: nat

    ghost predicate Valid()
      reads this, reader
    {
      reader.Valid() && nonCopiedPos <= reader.pos
    }

    /** Everything before `nonCopiedPos` has been copied verbatim. */
    ghost predicate CopiedVerbatim()
      reads this, reader
      requires Valid()
    {
      outStr == reader.mStr[..nonCopiedPos]
    }

    constructor (r: SicherCfgReader)
      requires r.Valid() && r.pos == 0
      ensures reader == r && Valid() && outStr == [] && nonCopiedPos == 0
      ensures CopiedVerbatim()
    {
      reader := r;
      outStr := [];
      nonCopiedPos := 0;
    }

    /** `write_until_pos`. */
    method WriteUntilPos()
      requires Valid()
      modifies this
      ensures Valid() && reader.pos == old(reader.pos)
      ensures outStr == old(outStr) + reader.mStr[old(nonCopiedPos)..reader.pos]
      ensures nonCopiedPos == reader.pos
      ensures old(CopiedVerbatim()) ==> CopiedVerbatim()
    {
      outStr := outStr + reader.mStr[nonCopiedPos..reader.pos];
      nonCopiedPos := reader.pos;
    }

    /**
     * `write_until_end`. Afterwards `nonCopiedPos` sits at `endPos`, which may
     * be past `pos`, so the writer's cursor invariant is not re-established.
     */
    method WriteUntilEnd()
      requires Valid()
      modifies this
      ensures reader.Valid() && nonCopiedPos == reader.endPos
      ensures outStr == old(outStr) + reader.mStr[old(nonCopiedPos)..reader.endPos]
      ensures old(CopiedVerbatim()) ==> outStr == reader.mStr[..reader.endPos]
    {
      outStr := outStr + reader.mStr[nonCopiedPos..reader.endPos];
      nonCopiedPos := reader.endPos;
    }

    /** `append_value<std::string>`. */
    method AppendValueStr(value: seq<Byte>)
      requires Valid()
      modifies this`outStr
      ensures Valid() && outStr == old(outStr) + value
    {
      outStr := outStr + value;
    }
  }

  /** With no overwrite in between, copying up to the cursor and then to the end reproduces the text. */
  method CopyThrough(w: SicherCfgWriter)
    requires w.Valid() && w.CopiedVerbatim() && w.reader.endPos == |w.reader.mStr|
    modifies w
    ensures w.outStr == old(w.reader.mStr)
  {
    w.WriteUntilPos();
    w.WriteUntilEnd();
  }
}
