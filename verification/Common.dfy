/** Types that several of the modelled files share. */
module Common {

  type Byte = b: int | 0 <= b < 256

  datatype Option<+T> = None | Some(value: T)

  function Small(k: nat): char
    requires k < 26
  {
    "abcdefghijklmnopqrstuvwxyz"[k]
  }

  function Capital(k: nat): char
    requires k < 26
  {
    "ABCDEFGHIJKLMNOPQRSTUVWXYZ"[k]
  }

  lemma SmallIs(k: nat)
    requires k < 26
    ensures Small(k) as int == 97 + k
  {
  }

  lemma CapitalIs(k: nat)
    requires k < 26
    ensures Capital(k) as int == 65 + k
  {
  }

  /** A small letter and its capital. */
  ghost predicate CasePair(x: char, y: char) {
    exists k: nat :: k < 26 && x == Small(k) && y == Capital(k)
  }

  lemma CasePairIs(x: char, y: char)
    ensures CasePair(x, y) <==> 'a' <= x <= 'z' && x as int == y as int + 32
  {
    hide Small, Capital;
    if k: nat :| k < 26 && x == Small(k) && y == Capital(k) {
      SmallIs(k);
      CapitalIs(k);
    }
    if 'a' <= x <= 'z' && x as int == y as int + 32 {
      SmallIs(x as int - 97);
      CapitalIs(x as int - 97);
    }
  }
}
