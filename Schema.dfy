/** The input graph the schema builder hands to the serializer and the flat
    endpoint record the serializer produces for each routable method. */
module Schema {

  datatype Option<T> = None | Some(value: T)

  /** The `EndpointParameter::TYPE_*` constants: the scalar default, and any
      other constant carried by its name. `OtherType` never carries the name
      of the scalar constant: a parameter declared scalar is `Scalar`. */
  datatype ParamType = Scalar | OtherType(constant: string)

  /** A parameter declared on a method (annotation): its type and optional description. */
  datatype Parameter = Parameter(paramType: ParamType, description: Option<string>)

  /** One argument of the handler method. */
  datatype Argument = Argument(name: string, argType: string)

  /** A controller method as the builder describes it. `httpMethods` are the
      HTTP verbs, `parameters` the declared parameters keyed by name. */
  datatype Method = Method(
    name: string,
    path: string,
    id: string,
    arguments: seq<Argument>,
    httpMethods: seq<string>,
    parameters: map<string, Parameter>)

  /** A controller with its group prefixes and its methods, in declaration order. */
  datatype Controller = Controller(
    className: string,
    path: string,
    id: string,
    groupPaths: seq<string>,
    groupIds: seq<string>,
    tags: seq<string>,
    methods: seq<Method>)

  /** HANDLER: class, method name and arguments of the handler. */
  datatype Handler = Handler(className: string, methodName: string, arguments: seq<Argument>)

  /** GROUP: the group ids and the group paths. */
  datatype Group = Group(ids: seq<string>, paths: seq<string>)

  /** One entry of PARAMETERS: NAME, PATTERN, TYPE and DESCRIPTION. */
  datatype ParamMeta = ParamMeta(name: string, pattern: string, paramType: ParamType, description: Option<string>)

  /** One record of the serialized schema. */
  datatype Endpoint = Endpoint(
    handler: Handler,
    group: Group,
    id: Option<string>,
    tags: seq<string>,
    methods: seq<string>,
    mask: string,
    parameters: map<string, ParamMeta>,
    pattern: string)
}
