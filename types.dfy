/** The shapes of the Score workload types that the framework and loader code read. */
module Types {
  import opened Wrappers

  /**
   * A decoded YAML/JSON value (Go's interface{}): Null is the nil interface, Obj a
   * map[string]interface{}, Arr a []interface{}. Numbers are kept as one exact kind.
   */
  datatype Value =
    | Str(s: string)
    | Num(n: real)
    | Bool(b: bool)
    | Null
    | Obj(fields: map<string, Value>)
    | Arr(items: seq<Value>)

  /** An element of a container's files list; only the fields the core reads. */
  datatype ContainerFile = ContainerFile(content: Option<string>, noExpand: Option<bool>)

  /** An element of a container's volumes list. */
  datatype ContainerVolume = ContainerVolume(source: string)

  datatype Container = Container(
    files: seq<ContainerFile>,
    variables: map<string, string>,
    volumes: seq<ContainerVolume>)

  /**
   * A resource declaration of a workload. A nil Metadata or Params map is None; an empty
   * map that is not nil is Some(map[]).
   */
  datatype Resource = Resource(
    resType: string,
    resClass: Option<string>,
    resId: Option<string>,
    metadata: Option<map<string, Value>>,
    params: Option<map<string, Value>>)

  /**
   * A Score workload. A nil metadata, containers or resources map reads exactly like an
   * empty one everywhere in the core, so each is a plain map.
   */
  datatype Workload = Workload(
    metadata: map<string, Value>,
    containers: map<string, Container>,
    resources: map<string, Resource>)
}
