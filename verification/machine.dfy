/**
 * Machine-level value types of the 32-bit x86 target Pintos runs on:
 * bytes, unsigned 32-bit words (`uint32_t`, pointers, `f->eax`) and
 * signed 32-bit integers (`int`, `pid_t`), with the two's-complement
 * reinterpretation a C cast between them performs.
 */
module Machine {

  type Byte = x: int | 0 <= x < 0x100

  /** `uint32_t`: the syscall number, each argument word, a user pointer, `f->eax`. */
  type Word = x: int | 0 <= x < 0x1_0000_0000

  /** `int`, `tid_t`, `pid_t`. */
  type Int32 = x: int | -0x8000_0000 <= x < 0x8000_0000

  const INT_MAX: Int32 := 0x7FFF_FFFF

  /** The cast `(int)w`: the same 32 bits read as a signed number. */
  function ToInt32(w: Word): (i: Int32)
    ensures i % 0x1_0000_0000 == w
    ensures i < 0 <==> w >= 0x8000_0000
  {
    if w < 0x8000_0000 then w else w - 0x1_0000_0000
  }

  /** The conversion back, as in `f->eax = (int)...`: the same 32 bits read as unsigned. */
  function FromInt32(i: Int32): (w: Word)
    ensures ToInt32(w) == i
    ensures w % 0x1_0000_0000 == i % 0x1_0000_0000
  {
    if i >= 0 then i else i + 0x1_0000_0000
  }

  /** Reading a word as signed and storing it back as unsigned gives back the word. */
  lemma WordRoundTrip(w: Word)
    ensures FromInt32(ToInt32(w)) == w
  {
  }
}
