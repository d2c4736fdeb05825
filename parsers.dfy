/** Java classes and YAML parsers, as far as the parser registry can see them. */
module Parsers {

  /** A Java class, identified by its name, with the two reflective queries
      the registry asks of it (`isEnum`, `isArray`). Whether one class is
      assignable from another is not a property of a single class: it is
      passed to the registry as a relation. */
  datatype TypeId = TypeId(name: string, isEnum: bool, isArray: bool)

  /** `java.util.Set`, the target class of SetYAMLParser. */
  const SetType := TypeId("java.util.Set", false, false)

  /** The target class of the structural fallback, SerializableYAMLParser. */
  const SerializableType := TypeId("java.io.Serializable", false, false)

  /** `IConfiguration`: classes assignable to it never get a parser. */
  const ConfigurationType := TypeId("it.fulminazzo.yamlparser.configuration.IConfiguration", false, false)

  /** The target class declared by ArrayYAMLParser. */
  const ArrayParserType := TypeId("java.lang.Object[]", false, true)

  /** A YAML parser object. `Custom` is any registered parser other than the
      ones named here; its `tag` tells apart two parser objects that declare
      the same target class. */
  datatype Parser =
    | Custom(target: TypeId, tag: nat)
    | SetParser
    | EnumParser(enumType: TypeId)
    | ArrayParser
    | SerializableParser
  {
    /** The parser's declared target class, `getOClass()`. */
    function OClass(): TypeId {
      match this
      case Custom(t, _) => t
      case SetParser => SetType
      case EnumParser(e) => e
      case ArrayParser => ArrayParserType
      case SerializableParser => SerializableType
    }

    /** `instanceof SerializableYAMLParser`. */
    predicate IsFallback() {
      SerializableParser?
    }
  }
}
