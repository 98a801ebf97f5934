/**
 * pydeflate's exception hierarchy and the messages its constructors build,
 * together with the Python built-in exceptions the core raises.
 */
module Exceptions {
  import opened Wrappers
  import opened Strings

  /** The exception classes the core raises. */
  datatype Class =
    | PydeflateError
    | DataSourceError
    | NetworkError
    | SchemaValidationError
    | CacheError
    | ConfigurationError
    | MissingDataError
    | PluginError
    | ValueError
    | KeyError
    | NameError
    | TypeError
    | FileNotFoundError

  /** The direct base class, `None` when it is a built-in root (`Exception`). */
  function Base(c: Class): Option<Class> {
    match c
    case PydeflateError => None
    case DataSourceError => Some(PydeflateError)
    case NetworkError => Some(DataSourceError)
    case SchemaValidationError => Some(DataSourceError)
    case CacheError => Some(PydeflateError)
    case ConfigurationError => Some(PydeflateError)
    case MissingDataError => Some(PydeflateError)
    case PluginError => Some(PydeflateError)
    case _ => None
  }

  /** How many classes lie between `c` and the root. */
  function Depth(c: Class): nat {
    match c
    case NetworkError => 2
    case SchemaValidationError => 2
    case PydeflateError => 0
    case _ => if Base(c).Some? then 1 else 0
  }

  /** `issubclass(c, d)` */
  predicate SubclassOf(c: Class, d: Class)
    decreases Depth(c)
  {
    c == d || (Base(c).Some? && Depth(Base(c).value) < Depth(c) && SubclassOf(Base(c).value, d))
  }

  /** Every pydeflate exception derives from `PydeflateError`, and no built-in one does. */
  lemma HierarchyRoots(c: Class)
    ensures SubclassOf(c, PydeflateError) <==> Base(c).Some? || c == PydeflateError
  {
  }

  lemma SourceErrorsAreDataSourceErrors()
    ensures SubclassOf(NetworkError, DataSourceError)
    ensures SubclassOf(SchemaValidationError, DataSourceError)
    ensures !SubclassOf(CacheError, DataSourceError) && !SubclassOf(PluginError, DataSourceError)
    ensures !SubclassOf(ConfigurationError, DataSourceError) && !SubclassOf(MissingDataError, DataSourceError)
  {
  }

  /** The subclass relation is a partial order. */
  lemma {:induction false} SubclassOfTransitive(a: Class, b: Class, c: Class)
    requires SubclassOf(a, b) && SubclassOf(b, c)
    ensures SubclassOf(a, c)
    decreases Depth(a)
  {
    if a != b {
      SubclassOfTransitive(Base(a).value, b, c);
    }
  }

  lemma {:induction false} SubclassOfDepth(a: Class, b: Class)
    requires SubclassOf(a, b)
    ensures Depth(b) <= Depth(a)
    ensures a != b ==> Depth(b) < Depth(a)
    decreases Depth(a)
  {
    if a != b {
      SubclassOfDepth(Base(a).value, b);
    }
  }

  lemma SubclassOfAntisymmetric(a: Class, b: Class)
    requires SubclassOf(a, b) && SubclassOf(b, a)
    ensures a == b
  {
    SubclassOfDepth(a, b);
    SubclassOfDepth(b, a);
  }

  /** An exception: its class and its `str()`. */
  datatype Error = Error(cls: Class, message: string)

  /** The outcome of an operation that may raise. */
  datatype Outcome<T> = Ok(value: T) | Fail(error: Error)

  /** Python's truth value of an optional string: `None` and `""` are false. */
  predicate Truthy(o: Option<string>) {
    o.Some? && o.value != ""
  }

  /** `head + message` when the optional attribute is truthy, else `message`. */
  function Decorate(attr: Option<string>, head: string -> string, message: string): (m: string)
    ensures EndsWith(m, message)
    ensures Truthy(attr) ==> m == head(attr.value) + message
    ensures !Truthy(attr) ==> m == message
  {
    if Truthy(attr) then head(attr.value) + message else message
  }

  /** The message without its decoration. */
  lemma DecorateStrips(attr: Option<string>, head: string -> string, message: string)
    ensures var m := Decorate(attr, head, message); m[|m| - |message|..] == message
  {
  }

  function SourceHead(source: string): string {
    "[" + source + "] "
  }

  /** `DataSourceError(message, source)`: "[source] message", or the bare message. */
  function DataSource(message: string, source: Option<string>): (e: Error)
    ensures e.cls == DataSourceError && SubclassOf(e.cls, PydeflateError)
    ensures Truthy(source) ==> StartsWith(e.message, "[" + source.value + "] ") && EndsWith(e.message, message)
    ensures Truthy(source) ==> |e.message| == |message| + |source.value| + 3
    ensures !Truthy(source) ==> e.message == message
  {
    Error(DataSourceError, Decorate(source, SourceHead, message))
  }

  /** A subclass of `DataSourceError` that keeps its message format. */
  function DataSourceKind(cls: Class, message: string, source: Option<string>): (e: Error)
    requires SubclassOf(cls, DataSourceError)
    ensures e.cls == cls && e.message == DataSource(message, source).message
  {
    Error(cls, Decorate(source, SourceHead, message))
  }

  function CacheHead(path: string): string {
    "Cache error at " + path + ": "
  }

  /** `CacheError(message, cache_path)` */
  function Cache(message: string, path: Option<string>): (e: Error)
    ensures e.cls == CacheError
    ensures Truthy(path) ==> StartsWith(e.message, "Cache error at " + path.value + ": ") && EndsWith(e.message, message)
    ensures Truthy(path) ==> |e.message| == |message| + |path.value| + 17
    ensures !Truthy(path) ==> e.message == message
  {
    Error(CacheError, Decorate(path, CacheHead, message))
  }

  function ConfigurationHead(parameter: string): string {
    "Invalid configuration for '" + parameter + "': "
  }

  /** `ConfigurationError(message, parameter)` */
  function Configuration(message: string, parameter: Option<string>): (e: Error)
    ensures e.cls == ConfigurationError
    ensures Truthy(parameter) ==>
              StartsWith(e.message, "Invalid configuration for '" + parameter.value + "': ") && EndsWith(e.message, message)
    ensures Truthy(parameter) ==> |e.message| == |message| + |parameter.value| + 30
    ensures !Truthy(parameter) ==> e.message == message
  {
    Error(ConfigurationError, Decorate(parameter, ConfigurationHead, message))
  }

  function PluginHead(name: string): string {
    "Plugin '" + name + "' error: "
  }

  /** `PluginError(message, plugin_name)` */
  function Plugin(message: string, name: Option<string>): (e: Error)
    ensures e.cls == PluginError
    ensures Truthy(name) ==> StartsWith(e.message, "Plugin '" + name.value + "' error: ") && EndsWith(e.message, message)
    ensures Truthy(name) ==> |e.message| == |message| + |name.value| + 17
    ensures !Truthy(name) ==> e.message == message
  {
    Error(PluginError, Decorate(name, PluginHead, message))
  }

  /** `MissingDataError(message, missing_entities)`: the message is kept as given. */
  function MissingData(message: string): (e: Error)
    ensures e.cls == MissingDataError && e.message == message
  {
    Error(MissingDataError, message)
  }
}
