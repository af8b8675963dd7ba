/**
 * The mode fix-up in `update`: a file with any execute bit becomes
 * executable for everyone, group and other write access is removed, and
 * the read bits and owner write bit are forced on. No file-type bits
 * (0100000) are added. Ruby integers have unbounded two's-complement bits,
 * so only the nine permission bits are touched; everything above them
 * (`mode / 512`, the arithmetic shift) is kept as it was.
 */
module FileMode {

  type Perm = bv9

  const ExecBits: Perm := 0x49          // 0111
  const GroupOtherWrite: Perm := 0x12   // 022
  const BaseBits: Perm := 0x1A4         // 0644
  const ModeRegular: int := 0x1A4       // 0644
  const ModeExecutable: int := 0x1ED    // 0755

  /** The nine permission bits of a mode. */
  function Low(mode: int): Perm {
    (mode % 512) as Perm
  }

  /** The lines `mode |= 0111 if mode & 0111 != 0; mode &= ~022; mode |= 0644` on the low bits. */
  function FixPerm(p: Perm): Perm {
    var p1 := if p & ExecBits != 0 then p | ExecBits else p;
    var p2 := p1 & !GroupOtherWrite;
    p2 | BaseBits
  }

  lemma SplitAt512(q: int, x: int)
    requires 0 <= x < 512
    ensures (q * 512 + x) / 512 == q && (q * 512 + x) % 512 == x
  {
  }

  /**
   * The normalised mode: the bits above 0777 are unchanged, and the
   * permission bits are 0755 when the input had any execute bit, 0644 otherwise.
   */
  function NormalizeMode(mode: int): (r: int)
    ensures r / 512 == mode / 512
    ensures Low(r) as int == (if Low(mode) & ExecBits != 0 then ModeExecutable else ModeRegular)
  {
    var p := FixPerm(Low(mode));
    assert p == if Low(mode) & ExecBits != 0 then 0x1ED else 0x1A4;
    SplitAt512(mode / 512, p as int);
    (mode / 512) * 512 + p as int
  }

  /** The 0644 bits are always set and the 022 bits never are. */
  lemma NormalizeModeBits(mode: int)
    ensures Low(NormalizeMode(mode)) & BaseBits == BaseBits
    ensures Low(NormalizeMode(mode)) & GroupOtherWrite == 0
  {
  }

  /** The three execute bits are all set or all clear, set exactly when the input had one. */
  lemma NormalizeModeExec(mode: int)
    ensures var e := Low(NormalizeMode(mode)) & ExecBits; e == 0 || e == ExecBits
    ensures Low(NormalizeMode(mode)) & ExecBits != 0 <==> Low(mode) & ExecBits != 0
  {
  }

  /** Normalising twice changes nothing more. */
  lemma NormalizeModeIdempotent(mode: int)
    ensures NormalizeMode(NormalizeMode(mode)) == NormalizeMode(mode)
  {
    var r := NormalizeMode(mode);
    var r2 := NormalizeMode(r);
    assert r2 / 512 == r / 512;
    assert Low(r2) == Low(r);
    assert r2 == (r2 / 512) * 512 + r2 % 512;
    assert r == (r / 512) * 512 + r % 512;
  }

  /** A plain permission value comes out as 0644 or 0755. */
  lemma NormalizePermission(mode: int)
    requires 0 <= mode <= 0x1FF
    ensures NormalizeMode(mode) == ModeRegular || NormalizeMode(mode) == ModeExecutable
  {
    var r := NormalizeMode(mode);
    assert r == (r / 512) * 512 + r % 512;
  }
}
