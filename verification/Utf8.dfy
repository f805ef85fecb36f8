/** UTF-8 as the repository writes it (emit_utf8 of tmux/render.c, scrollback_capture of _lib/vt.c). */
module Utf8 {
  type Byte = n: nat | n < 256

  function Encode(cp: nat): (s: seq<Byte>)
    ensures 1 <= |s| <= 4
  {
    if cp < 0x80 then [cp]
    else if cp < 0x800 then [0xC0 + cp / 64, 0x80 + cp % 64]
    else if cp < 0x1_0000 then [0xE0 + cp / 4096, 0x80 + cp / 64 % 64, 0x80 + cp % 64]
    else [0xF0 + cp / 262144 % 16, 0x80 + cp / 4096 % 64, 0x80 + cp / 64 % 64, 0x80 + cp % 64]
  }
}
