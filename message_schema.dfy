/** The root of a parsed schema. */
module Schema {
  import opened Wrappers
  import opened Common
  import opened Elements
  import opened Builtin
  import opened TypesRegistry
  import opened MessageCollection

  class MessageSchema {
    var package: string
    var version: int
    var id: int
    var semanticVersion: string
    /** The name of the composite that frames every message. */
    var headerType: string
    var byteOrder: ByteOrder
    var types: Types
    var messages: Messages
    /** The header composite, once the reader has looked it up by name. */
    var header: Option<Element>

    /**
     * A schema with its defaults: no semantic version, the header named
     * `messageHeader`, little-endian, and registries of its own: a fresh one
     * holding the builtins and an empty message collection.
     */
    constructor(package: string, version: int, id: int)
      ensures this.package == package && this.version == version && this.id == id
      ensures semanticVersion == "" && headerType == "messageHeader" && byteOrder == LittleEndian
      ensures fresh(types) && fresh(messages) && header == None
      ensures types.Valid() && types.order == Names(Builtins) && types.entries == MapOf(Builtins)
      ensures messages.Valid() && messages.byId == map[] && messages.byName == map[]
    {
      this.package := package;
      this.version := version;
      this.id := id;
      semanticVersion := "";
      headerType := "messageHeader";
      byteOrder := LittleEndian;
      types := new Types();
      messages := new Messages();
      header := None;
    }
  }
}
