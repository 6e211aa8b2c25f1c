/** Scalar types of the OpenGL interface and the attribute pointer record that
    both the mesh database and the vertex-array binder pass around. */
module GLTypes {

  /** GLuint / uint32_t. */
  type u32 = x: int | 0 <= x < 0x1_0000_0000

  /** GLint / GLsizei. */
  type i32 = x: int | -0x8000_0000 <= x < 0x8000_0000

  /** Unsigned 32-bit addition as C++ evaluates it: the sum wraps modulo 2^32. */
  function Add32(a: u32, b: u32): (r: u32)
    ensures a + b < 0x1_0000_0000 ==> r == a + b
    ensures a + b >= 0x1_0000_0000 ==> r == a + b - 0x1_0000_0000 && r < a
  {
    (a + b) % 0x1_0000_0000
  }

  /** Conversion of a record count (size_t) to GLuint: only the low 32 bits survive. */
  function Truncate32(n: nat): (r: u32)
    ensures n < 0x1_0000_0000 ==> r == n
  {
    n % 0x1_0000_0000
  }

  /** Everything glVertexAttribPointer needs to read one vertex field out of a
      buffer. A pointer whose buffer is 0 stands for "no such attribute". */
  datatype AttribPointer = AttribPointer(
    buffer: u32,
    size: i32,
    glType: u32,
    normalized: bool,
    stride: i32,
    offset: u32)
  {
    predicate Defined() { buffer != 0 }
  }

  /** The value of a default-constructed attribute pointer. */
  const Undefined: AttribPointer := AttribPointer(0, 0, 0, false, 0, 0)
}
