/**
 * The byte-level table of the GPT-2 tokenizer (`byteEncoder`) and its inverse
 * (`byteDecoder`). The table is written out below exactly as the source lists
 * it; the lemmas then describe its shape, including the defect that bytes
 * 197..233 are shifted one code point up, so that 233 and 234 share "ê" and
 * no byte is sent to "Å".
 */
module CodegenByteCodec {
  import opened Associations

  /** A byte value, the key type of the encoder table. */
  type Byte = b: int | 0 <= b < 256

  /** The one character the encoder table holds for a byte, case by case in the order of its `put` calls. */
  function EncoderChar(b: Byte): char
  {
    match b
    case 33 => '!'
    case 34 => '"'
    case 35 => '#'
    case 36 => '$'
    case 37 => '%'
    case 38 => '&'
    case 39 => '\''
    case 40 => '('
    case 41 => ')'
    case 42 => '*'
    case 43 => '+'
    case 44 => ','
    case 45 => '-'
    case 46 => '.'
    case 47 => '/'
    case 48 => '0'
    case 49 => '1'
    case 50 => '2'
    case 51 => '3'
    case 52 => '4'
    case 53 => '5'
    case 54 => '6'
    case 55 => '7'
    case 56 => '8'
    case 57 => '9'
    case 58 => ':'
    case 59 => ';'
    case 60 => '<'
    case 61 => '='
    case 62 => '>'
    case 63 => '?'
    case 64 => '@'
    case 65 => 'A'
    case 66 => 'B'
    case 67 => 'C'
    case 68 => 'D'
    case 69 => 'E'
    case 70 => 'F'
    case 71 => 'G'
    case 72 => 'H'
    case 73 => 'I'
    case 74 => 'J'
    case 75 => 'K'
    case 76 => 'L'
    case 77 => 'M'
    case 78 => 'N'
    case 79 => 'O'
    case 80 => 'P'
    case 81 => 'Q'
    case 82 => 'R'
    case 83 => 'S'
    case 84 => 'T'
    case 85 => 'U'
    case 86 => 'V'
    case 87 => 'W'
    case 88 => 'X'
    case 89 => 'Y'
    case 90 => 'Z'
    case 91 => '['
    case 92 => '\\'
    case 93 => ']'
    case 94 => '^'
    case 95 => '_'
    case 96 => '`'
    case 97 => 'a'
    case 98 => 'b'
    case 99 => 'c'
    case 100 => 'd'
    case 101 => 'e'
    case 102 => 'f'
    case 103 => 'g'
    case 104 => 'h'
    case 105 => 'i'
    case 106 => 'j'
    case 107 => 'k'
    case 108 => 'l'
    case 109 => 'm'
    case 110 => 'n'
    case 111 => 'o'
    case 112 => 'p'
    case 113 => 'q'
    case 114 => 'r'
    case 115 => 's'
    case 116 => 't'
    case 117 => 'u'
    case 118 => 'v'
    case 119 => 'w'
    case 120 => 'x'
    case 121 => 'y'
    case 122 => 'z'
    case 123 => '{'
    case 124 => '|'
    case 125 => '}'
    case 126 => '~'
    case 161 => '\U{A1}'
    case 162 => '\U{A2}'
    case 163 => '\U{A3}'
    case 164 => '\U{A4}'
    case 165 => '\U{A5}'
    case 166 => '\U{A6}'
    case 167 => '\U{A7}'
    case 168 => '\U{A8}'
    case 169 => '\U{A9}'
    case 170 => '\U{AA}'
    case 171 => '\U{AB}'
    case 172 => '\U{AC}'
    case 174 => '\U{AE}'
    case 175 => '\U{AF}'
    case 176 => '\U{B0}'
    case 177 => '\U{B1}'
    case 178 => '\U{B2}'
    case 179 => '\U{B3}'
    case 180 => '\U{B4}'
    case 181 => '\U{B5}'
    case 182 => '\U{B6}'
    case 183 => '\U{B7}'
    case 184 => '\U{B8}'
    case 185 => '\U{B9}'
    case 186 => '\U{BA}'
    case 187 => '\U{BB}'
    case 188 => '\U{BC}'
    case 189 => '\U{BD}'
    case 190 => '\U{BE}'
    case 191 => '\U{BF}'
    case 192 => '\U{C0}'
    case 193 => '\U{C1}'
    case 194 => '\U{C2}'
    case 195 => '\U{C3}'
    case 196 => '\U{C4}'
    case 197 => '\U{C6}'
    case 198 => '\U{C7}'
    case 199 => '\U{C8}'
    case 200 => '\U{C9}'
    case 201 => '\U{CA}'
    case 202 => '\U{CB}'
    case 203 => '\U{CC}'
    case 204 => '\U{CD}'
    case 205 => '\U{CE}'
    case 206 => '\U{CF}'
    case 207 => '\U{D0}'
    case 208 => '\U{D1}'
    case 209 => '\U{D2}'
    case 210 => '\U{D3}'
    case 211 => '\U{D4}'
    case 212 => '\U{D5}'
    case 213 => '\U{D6}'
    case 214 => '\U{D7}'
    case 215 => '\U{D8}'
    case 216 => '\U{D9}'
    case 217 => '\U{DA}'
    case 218 => '\U{DB}'
    case 219 => '\U{DC}'
    case 220 => '\U{DD}'
    case 221 => '\U{DE}'
    case 222 => '\U{DF}'
    case 223 => '\U{E0}'
    case 224 => '\U{E1}'
    case 225 => '\U{E2}'
    case 226 => '\U{E3}'
    case 227 => '\U{E4}'
    case 228 => '\U{E5}'
    case 229 => '\U{E6}'
    case 230 => '\U{E7}'
    case 231 => '\U{E8}'
    case 232 => '\U{E9}'
    case 233 => '\U{EA}'
    case 234 => '\U{EA}'
    case 235 => '\U{EB}'
    case 236 => '\U{EC}'
    case 237 => '\U{ED}'
    case 238 => '\U{EE}'
    case 239 => '\U{EF}'
    case 240 => '\U{F0}'
    case 241 => '\U{F1}'
    case 242 => '\U{F2}'
    case 243 => '\U{F3}'
    case 244 => '\U{F4}'
    case 245 => '\U{F5}'
    case 246 => '\U{F6}'
    case 247 => '\U{F7}'
    case 248 => '\U{F8}'
    case 249 => '\U{F9}'
    case 250 => '\U{FA}'
    case 251 => '\U{FB}'
    case 252 => '\U{FC}'
    case 253 => '\U{FD}'
    case 254 => '\U{FE}'
    case 255 => '\U{FF}'
    case 0 => '\U{100}'
    case 1 => '\U{101}'
    case 2 => '\U{102}'
    case 3 => '\U{103}'
    case 4 => '\U{104}'
    case 5 => '\U{105}'
    case 6 => '\U{106}'
    case 7 => '\U{107}'
    case 8 => '\U{108}'
    case 9 => '\U{109}'
    case 10 => '\U{10A}'
    case 11 => '\U{10B}'
    case 12 => '\U{10C}'
    case 13 => '\U{10D}'
    case 14 => '\U{10E}'
    case 15 => '\U{10F}'
    case 16 => '\U{110}'
    case 17 => '\U{111}'
    case 18 => '\U{112}'
    case 19 => '\U{113}'
    case 20 => '\U{114}'
    case 21 => '\U{115}'
    case 22 => '\U{116}'
    case 23 => '\U{117}'
    case 24 => '\U{118}'
    case 25 => '\U{119}'
    case 26 => '\U{11A}'
    case 27 => '\U{11B}'
    case 28 => '\U{11C}'
    case 29 => '\U{11D}'
    case 30 => '\U{11E}'
    case 31 => '\U{11F}'
    case 32 => '\U{120}'
    case 127 => '\U{121}'
    case 128 => '\U{122}'
    case 129 => '\U{123}'
    case 130 => '\U{124}'
    case 131 => '\U{125}'
    case 132 => '\U{126}'
    case 133 => '\U{127}'
    case 134 => '\U{128}'
    case 135 => '\U{129}'
    case 136 => '\U{12A}'
    case 137 => '\U{12B}'
    case 138 => '\U{12C}'
    case 139 => '\U{12D}'
    case 140 => '\U{12E}'
    case 141 => '\U{12F}'
    case 142 => '\U{130}'
    case 143 => '\U{131}'
    case 144 => '\U{132}'
    case 145 => '\U{133}'
    case 146 => '\U{134}'
    case 147 => '\U{135}'
    case 148 => '\U{136}'
    case 149 => '\U{137}'
    case 150 => '\U{138}'
    case 151 => '\U{139}'
    case 152 => '\U{13A}'
    case 153 => '\U{13B}'
    case 154 => '\U{13C}'
    case 155 => '\U{13D}'
    case 156 => '\U{13E}'
    case 157 => '\U{13F}'
    case 158 => '\U{140}'
    case 159 => '\U{141}'
    case 160 => '\U{142}'
    case 173 => '\U{143}'
  }

  /** The table a per-byte character assignment defines: each byte to the one-character string of its character. */
  function TableOf(ch: Byte -> char): (m: map<int, string>)
    ensures forall b: int :: b in m <==> 0 <= b < 256
    ensures forall b | 0 <= b < 256 :: m[b] == [ch(b)]
  {
    map b: int | 0 <= b < 256 :: [ch(b)]
  }

  /**
   * The entries of such a table in iteration order. A `HashMap` keeps small
   * `Int` keys in ascending order, since each key's hash is its own value.
   */
  function EntriesOf(ch: Byte -> char): (e: seq<(int, string)>)
    ensures |e| == 256
    ensures forall b | 0 <= b < 256 :: e[b] == (b, TableOf(ch)[b])
  {
    seq(256, b requires 0 <= b < 256 => (b, [ch(b)]))
  }

  /** The inverse table, built with `associateBy` over the entries. */
  function InverseOf(ch: Byte -> char): map<string, int>
  {
    AssociateByValue(EntriesOf(ch))
  }

  /** `byteEncoder`: a map from every byte to a one-character string. */
  function ByteEncoder(): (m: map<int, string>)
    ensures forall b: int :: b in m <==> 0 <= b < 256
    ensures forall b | 0 <= b < 256 :: |m[b]| == 1
  {
    TableOf(EncoderChar)
  }

  /** The encoder's entries in iteration order. */
  function EncoderEntries(): (e: seq<(int, string)>)
    ensures |e| == 256
    ensures forall b | 0 <= b < 256 :: e[b] == (b, ByteEncoder()[b])
  {
    EntriesOf(EncoderChar)
  }

  /** `byteDecoder`: `byteEncoder.entries.associateBy({ it.value }) { it.key }`. */
  function ByteDecoder(): map<string, int>
  {
    InverseOf(EncoderChar)
  }

  /** The printable ASCII bytes keep their code point. */
  lemma EncoderAscii()
    ensures forall b: int | 33 <= b <= 126 :: EncoderChar(b) == b as char
  {
  }

  /** So do the printable Latin-1 bytes below 197, and those from 234 up. */
  lemma EncoderLatin1()
    ensures forall b: int | 161 <= b <= 172 || 174 <= b <= 196 || 234 <= b <= 255 :: EncoderChar(b) == b as char
  {
  }

  /** Bytes 197..233 are one code point above their own, so 233 lands on 234's "ê". */
  lemma EncoderShifted()
    ensures forall b: int | 197 <= b <= 233 :: EncoderChar(b) == (b + 1) as char
  {
  }

  /** The other bytes go, in order, to U+0100 and up: first 0..32 ... */
  lemma EncoderRemappedLow()
    ensures forall b: int | 0 <= b <= 32 :: EncoderChar(b) == (0x100 + b) as char
  {
  }

  /** ... then 127..160 ... */
  lemma EncoderRemappedHigh()
    ensures forall b: int | 127 <= b <= 160 :: EncoderChar(b) == (0x121 + (b - 127)) as char
  {
  }

  /** ... and last 173, the soft hyphen. */
  lemma EncoderRemappedSoftHyphen()
    ensures EncoderChar(173) == 0x143 as char
  {
  }

  /** The encoder is not injective: 233 and 234 collide, and that is the only collision. */
  lemma EncoderCollision()
    ensures EncoderChar(233) == EncoderChar(234) == 'ê'
    ensures forall b, c | 0 <= b < c < 256 && EncoderChar(b) == EncoderChar(c) :: b == 233 && c == 234
    ensures forall b | 0 <= b < 256 :: EncoderChar(b) != 'Å'
  {
    EncoderAscii();
    EncoderLatin1();
    EncoderShifted();
    EncoderRemappedLow();
    EncoderRemappedHigh();
    EncoderRemappedSoftHyphen();
  }

  /** The decoder's keys are the encoder's values. */
  lemma DecoderKeys()
    ensures ByteDecoder().Keys == set b | 0 <= b < 256 :: ByteEncoder()[b]
  {
    var e := EncoderEntries();
    AssociateByValueLastWins(e);
    assert (set i | 0 <= i < |e| :: e[i].1) == set b | 0 <= b < 256 :: ByteEncoder()[b];
  }

  /**
   * Every byte but 233 decodes back to itself; "ê" decodes to 234, the later
   * of the two bytes that share it.
   */
  lemma DecoderRoundTrip()
    ensures forall b | 0 <= b < 256 && b != 233 :: ByteDecoder()[ByteEncoder()[b]] == b
    ensures ByteDecoder()[ByteEncoder()[233]] == 234
  {
    var e := EncoderEntries();
    AssociateByValueLastWins(e);
    EncoderCollision();
    forall b | 0 <= b < 256 && b != 233 ensures ByteDecoder()[ByteEncoder()[b]] == b {
      assert IsLastForValue(e, b);
    }
    assert IsLastForValue(e, 234);
  }

  /** Because of the collision the decoder has 255 entries, one fewer than the encoder. */
  lemma DecoderSize()
    ensures |ByteDecoder()| == 255
  {
    EncoderCollision();
    InverseSizeWithout(EncoderChar, 233, 234);
  }

  /** An assignment whose only collision is between two bytes has an inverse of 255 entries. */
  lemma InverseSizeWithout(ch: Byte -> char, d: int, k: int)
    requires 0 <= d < 256 && 0 <= k < 256 && d != k && ch(d) == ch(k)
    requires forall b, c | 0 <= b < c < 256 && ch(b) == ch(c) :: (b == d && c == k) || (b == k && c == d)
    ensures |InverseOf(ch)| == 255
  {
    var strings := b => StringOf(ch, b);
    var kept := Below(ByteCount) - {d};
    KeptInjective(ch, strings, d, k);
    InverseKeysWithout(ch, strings, d, k);
    InjectiveImageSize(kept, strings);
    BelowSize(ByteCount);
    assert |InverseOf(ch).Keys| == 255;
  }

  /** Leaving out one byte of the only colliding pair leaves distinct strings. */
  lemma KeptInjective(ch: Byte -> char, strings: int -> string, d: int, k: int)
    requires forall b :: strings(b) == StringOf(ch, b)
    requires forall b, c | 0 <= b < c < 256 && ch(b) == ch(c) :: (b == d && c == k) || (b == k && c == d)
    ensures forall x, y | x in Below(ByteCount) - {d} && y in Below(ByteCount) - {d} && x != y ::
      strings(x) != strings(y)
  {
    forall x, y | x in Below(ByteCount) - {d} && y in Below(ByteCount) - {d} && x != y
      ensures strings(x) != strings(y)
    {
      if x < y {
        assert !(ch(x) == ch(y));
      } else {
        assert !(ch(y) == ch(x));
      }
    }
  }

  /** The encoder as a total function: the string of a byte, and "" elsewhere. */
  function KeptEncoding(b: int): string
  {
    StringOf(EncoderChar, b)
  }

  /** Leaving byte 233 out loses none of the decoder's keys. */
  lemma DecoderKeysKept()
    ensures ByteDecoder().Keys == Image(Below(ByteCount) - {233}, KeptEncoding)
  {
    EncoderCollision();
    InverseKeysWithout(EncoderChar, KeptEncoding, 233, 234);
  }

  /** Leaving out one of two bytes that share a character loses none of the inverse's keys. */
  lemma InverseKeysWithout(ch: Byte -> char, strings: int -> string, d: int, k: int)
    requires forall b :: strings(b) == StringOf(ch, b)
    requires 0 <= d < 256 && 0 <= k < 256 && d != k && ch(d) == ch(k)
    ensures InverseOf(ch).Keys == Image(Below(ByteCount) - {d}, strings)
  {
    InverseKeys(ch, strings);
    assert strings(d) == strings(k);
    ImageWithout(Below(ByteCount), strings, d, k);
  }

  /** The number of byte values. */
  const ByteCount: nat := 256

  /** The integers 0 .. n - 1. */
  function Below(n: nat): (s: set<int>)
    ensures forall b :: b in s <==> 0 <= b < n
  {
    CountedMembers(n);
    set b | b in Counted(n)
  }

  /** The integers 0 .. n - 1 in ascending order. */
  function Counted(n: nat): (r: seq<int>)
    ensures |r| == n && forall i | 0 <= i < n :: r[i] == i
  {
    seq(n, i => i)
  }

  lemma CountedMembers(n: nat)
    ensures forall b :: b in Counted(n) <==> 0 <= b < n
  {
    forall b | 0 <= b < n ensures b in Counted(n) {
      assert Counted(n)[b] == b;
    }
  }

  /** There are n of them. */
  lemma {:induction false} BelowSize(n: nat)
    ensures |Below(n)| == n
  {
    if n > 0 {
      BelowSize(n - 1);
      assert Below(n) == Below(n - 1) + {n - 1};
    }
  }

  /** No other byte's string is "Å": it is no key of the decoder. */
  lemma DecoderLacksARing()
    ensures "Å" !in ByteDecoder()
  {
    DecoderKeys();
    EncoderCollision();
  }

  /** A character assignment that gives distinct bytes distinct characters. */
  ghost predicate Injective(ch: Byte -> char)
  {
    forall b: Byte, c: Byte | b != c :: ch(b) != ch(c)
  }

  /** The table of an injective assignment has an inverse that sends every string back to its byte ... */
  lemma InjectiveTableRoundTrip(ch: Byte -> char)
    requires Injective(ch)
    ensures forall b | 0 <= b < 256 :: TableOf(ch)[b] in InverseOf(ch) && InverseOf(ch)[TableOf(ch)[b]] == b
  {
    var e := EntriesOf(ch);
    AssociateByValueLastWins(e);
    forall b | 0 <= b < 256 ensures TableOf(ch)[b] in InverseOf(ch) && InverseOf(ch)[TableOf(ch)[b]] == b {
      assert IsLastForValue(e, b);
    }
  }

  /** The one-character strings of an assignment, and "" outside the bytes. */
  function StringOf(ch: Byte -> char, b: int): string
  {
    if 0 <= b < 256 then [ch(b)] else ""
  }

  /** ... and 256 entries. */
  lemma InjectiveTableSize(ch: Byte -> char)
    requires Injective(ch)
    ensures |InverseOf(ch)| == 256
  {
    var strings := b => StringOf(ch, b);
    InverseKeys(ch, strings);
    InjectiveImageSize(Below(ByteCount), strings);
    BelowSize(ByteCount);
  }

  lemma InverseKeys(ch: Byte -> char, strings: int -> string)
    requires forall b :: strings(b) == StringOf(ch, b)
    ensures InverseOf(ch).Keys == Image(Below(ByteCount), strings)
  {
    var e := EntriesOf(ch);
    AssociateByValueLastWins(e);
    ValuesImage(e, strings);
  }

  /** The values of entries whose i-th value is `strings(i)` are the image of the bytes. */
  lemma ValuesImage(e: seq<(int, string)>, strings: int -> string)
    requires |e| == ByteCount
    requires forall i | 0 <= i < |e| :: e[i].1 == strings(i)
    ensures (set i | 0 <= i < |e| :: e[i].1) == Image(Below(ByteCount), strings)
  {
    forall y | y in (set i | 0 <= i < |e| :: e[i].1) ensures y in Image(Below(ByteCount), strings) {
      var i :| 0 <= i < |e| && y == e[i].1;
      assert strings(i) == y;
    }
    forall y | y in Image(Below(ByteCount), strings) ensures y in (set i | 0 <= i < |e| :: e[i].1) {
      var b :| b in Below(ByteCount) && y == strings(b);
      assert y == e[b].1;
    }
  }

  /**
   * The table the source meant to write: the byte-to-Unicode table of the GPT-2
   * tokenizer, where the printable ranges 33..126, 161..172 and 174..255 keep their
   * code point and the other 68 bytes go, in ascending order, to U+0100 and up.
   */
  function IntendedChar(b: Byte): (c: char)
    ensures 33 <= b <= 126 || 161 <= b <= 172 || 174 <= b <= 255 ==> c == b as char
    ensures 0 <= b <= 32 ==> c == (0x100 + b) as char
    ensures 127 <= b <= 160 ==> c == (0x121 + (b - 127)) as char
    ensures b == 173 ==> c == 0x143 as char
  {
    if 33 <= b <= 126 || 161 <= b <= 172 || 174 <= b <= 255 then b as char
    else if b <= 32 then (0x100 + b) as char
    else if b <= 160 then (0x121 + (b - 127)) as char
    else 0x143 as char
  }

  /** The intended table gives every byte its own character ... */
  lemma IntendedInjective()
    ensures Injective(IntendedChar)
  {
    forall b: Byte, c: Byte | b != c ensures IntendedChar(b) != IntendedChar(c) {
      assert IntendedChar(b) as int != IntendedChar(c) as int;
    }
  }

  /** ... so its inverse undoes it on all 256 bytes and has 256 entries. */
  lemma IntendedRoundTrip()
    ensures forall b | 0 <= b < 256 :: InverseOf(IntendedChar)[TableOf(IntendedChar)[b]] == b
    ensures |InverseOf(IntendedChar)| == 256
  {
    IntendedInjective();
    InjectiveTableRoundTrip(IntendedChar);
    InjectiveTableSize(IntendedChar);
  }

  /** The source's table agrees with the intended one except on 197..233 ... */
  lemma EncoderAgreesWithIntended()
    ensures forall b: int | 0 <= b < 256 && !(197 <= b <= 233) :: EncoderChar(b) == IntendedChar(b)
  {
    forall b: int | 0 <= b < 256 && !(197 <= b <= 233) ensures EncoderChar(b) == IntendedChar(b) {
      if b <= 32 {
        EncoderRemappedLow();
      } else if b <= 126 {
        EncoderAscii();
      } else if b <= 160 {
        EncoderRemappedHigh();
      } else if b == 173 {
        EncoderRemappedSoftHyphen();
      } else {
        EncoderLatin1();
      }
    }
  }

  /** ... where each byte holds its successor's character instead of its own. */
  lemma EncoderDiffersFromIntended()
    ensures forall b: int | 197 <= b <= 233 :: EncoderChar(b) == IntendedChar(b + 1) != IntendedChar(b)
  {
    EncoderShifted();
  }
}
