/** 64-bit words. The operations have names so that a proof can set their meaning aside. */
module Words {

  type Word = bv64

  function And(a: Word, b: Word): Word
  {
    a & b
  }

  function Or(a: Word, b: Word): Word
  {
    a | b
  }

  function Xor(a: Word, b: Word): Word
  {
    a ^ b
  }

  function Not(a: Word): Word
  {
    !a
  }
}
