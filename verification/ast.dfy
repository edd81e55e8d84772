/**
 The AST node vocabulary the driver allocates. Leaf variants are the three
 the lexical bridge creates; composite nodes built by grammar actions are
 represented by one generic variant, since their concrete kinds are defined
 outside the driver.
 */
module Ast {

  /** An index into the driver's node arena; it plays the role of a node pointer. */
  type Handle = nat

  /** The bit pattern of a C++ `double`; its value is never interpreted here. */
  type Double = bv64

  datatype Node =
    | Id(name: string)
    | FixedVal(number: Double)
    | IntVal(integer: int)
    | Composite(tag: string, children: seq<Handle>)
}
