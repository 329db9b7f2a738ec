/** The character table of lib/ctype.c, by its ranges. */
module Ctype {
  import opened Bytes

  datatype Class = Upper | Lower | Digit | Control | Punct | Space | HexLetter | HardSpace

  function Classes(c: byte): set<Class> {
    if c <= 8 then {Control}
    else if c <= 13 then {Control, Space}
    else if c <= 31 then {Control}
    else if c == 32 then {Space, HardSpace}
    else if c <= 47 then {Punct}
    else if c <= 57 then {Digit}
    else if c <= 64 then {Punct}
    else if c <= 70 then {Upper, HexLetter}
    else if c <= 90 then {Upper}
    else if c <= 96 then {Punct}
    else if c <= 102 then {Lower, HexLetter}
    else if c <= 122 then {Lower}
    else if c <= 126 then {Punct}
    else if c == 127 then {Control}
    else if c <= 159 then {}
    else if c == 160 then {Space, HardSpace}
    else if c <= 191 then {Punct}
    else if c <= 214 then {Upper}
    else if c == 215 then {Punct}
    else if c <= 222 then {Upper}
    else if c <= 246 then {Lower}
    else if c == 247 then {Punct}
    else {Lower}
  }

  predicate IsSpace(c: byte) { Space in Classes(c) }

  predicate IsPrint(c: byte) {
    Punct in Classes(c) || Upper in Classes(c) || Lower in Classes(c) || Digit in Classes(c) || HardSpace in Classes(c)
  }

  predicate IsXdigit(c: byte) { Digit in Classes(c) || HexLetter in Classes(c) }
}
