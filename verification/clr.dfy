/** The few pieces of the .NET base library the modelled code leans on: the
    exceptions it throws and `string.IsNullOrWhiteSpace`. */
module Clr {
  import opened Wrappers

  /** The exceptions the modelled members can raise. */
  datatype Exception =
    /** `ArgumentNullException` carrying the offending parameter's name. */
    | ArgumentNull(paramName: string)
    /** `NullReferenceException`: a member was invoked through a null reference. */
    | NullReference
    /** `InvalidCastException` from a cast `(T)obj` whose runtime type is not a `T`. */
    | InvalidCast
    /** A plain `System.Exception` raised because no actual type was found for
        the expected type with this assembly-qualified name. */
    | MappingNotFound(assemblyQualifiedName: string)

  /** `char.IsWhiteSpace`: the Unicode space, line and paragraph separators,
      the control characters U+0009 to U+000D, and U+0085. */
  predicate IsWhiteSpace(c: char) {
    var n := c as int;
    || 0x09 <= n <= 0x0D
    || n == 0x20 || n == 0x85 || n == 0xA0 || n == 0x1680
    || 0x2000 <= n <= 0x200A
    || n == 0x2028 || n == 0x2029 || n == 0x202F || n == 0x205F || n == 0x3000
  }

  /** `string.IsNullOrWhiteSpace`: null, empty, or white space throughout. */
  predicate IsNullOrWhiteSpace(s: Option<string>) {
    s.None? || forall i :: 0 <= i < |s.value| ==> IsWhiteSpace(s.value[i])
  }
}
