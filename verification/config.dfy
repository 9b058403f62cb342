/** Preparing the serial configuration before the port is opened
    (SMSDevice.connect): the device path and the speed are taken out, the
    integer-valued settings are converted, everything else passes through. */
module Config {
  import opened Wrappers
  import Decimal

  /** A configuration value: text as read from the configuration file, or an
      integer after conversion. */
  datatype Setting = Text(text: string) | Number(value: int)

  /** dict.pop of an absent key, or int() of a non-integer text. */
  datatype ConfigError = MissingKey(key: string) | NotAnInteger(key: string)

  /** What the port is opened with: device path, speed, keyword settings. */
  datatype SerialSettings = SerialSettings(device: string, speed: string, options: map<string, Setting>)

  /** The keys converted with int(), in the order they are converted. */
  const IntegerKeys: seq<string> := ["timeout", "bytesize", "stopbits"]

  /** int() of a setting. */
  function AsInt(s: Setting): Option<int>
  {
    match s
    case Text(t) => Decimal.ParseInt(t)
    case Number(v) => Some(v)
  }

  /** The toint calls: every listed key that is present is replaced by its
      integer value; the first one that does not convert is the error. */
  function ConvertKeys(m: map<string, Setting>, keys: seq<string>): (r: Result<map<string, Setting>, ConfigError>)
    ensures r.Success? <==> forall i :: 0 <= i < |keys| && keys[i] in m ==> AsInt(m[keys[i]]).Some?
    ensures r.Success? ==> r.value.Keys == m.Keys
    ensures r.Success? ==> forall k :: k in m ==>
      r.value[k] == (if k in keys then Number(AsInt(m[k]).value) else m[k])
    ensures r.Failure? ==> exists i :: 0 <= i < |keys| && keys[i] in m && AsInt(m[keys[i]]).None? &&
                             r.error == NotAnInteger(keys[i]) &&
                             forall j :: 0 <= j < i && keys[j] in m ==> AsInt(m[keys[j]]).Some?
  {
    if |keys| == 0 then Success(m)
    else
      var k := keys[0];
      var head: Result<map<string, Setting>, ConfigError> :=
        if k !in m then Success(m)
        else match AsInt(m[k])
          case Some(v) => Success(m[k := Number(v)])
          case None => Failure(NotAnInteger(k));
      match head
      case Failure(e) => Failure(e)
      case Success(m') =>
        var r := ConvertKeys(m', keys[1..]);
        assert forall i :: 1 <= i < |keys| ==> keys[i] == keys[1..][i - 1];
        r
  }

  /** The configuration with the device path and the speed taken out; every
      other value as text. */
  function Remaining(conf: map<string, string>): (m: map<string, Setting>)
    ensures m.Keys == conf.Keys - {"device", "speed"}
  {
    map k | k in conf && k != "device" && k != "speed" :: Text(conf[k])
  }

  /** The settings SMSDevice.connect derives from its serial configuration:
      device then speed are popped (an absent one is an error), then timeout,
      bytesize and stopbits become integers when present. */
  function PrepareSerial(conf: map<string, string>): (r: Result<SerialSettings, ConfigError>)
    ensures "device" !in conf ==> r == Failure(MissingKey("device"))
    ensures "device" in conf && "speed" !in conf ==> r == Failure(MissingKey("speed"))
    ensures r.Success? <==>
      && "device" in conf && "speed" in conf
      && forall k :: k in conf && k in IntegerKeys ==> Decimal.ParseInt(conf[k]).Some?
    ensures r.Success? ==>
      && r.value.device == conf["device"] && r.value.speed == conf["speed"]
      && r.value.options.Keys == conf.Keys - {"device", "speed"}
      && forall k :: k in r.value.options ==>
           r.value.options[k] == (if k in IntegerKeys then Number(Decimal.ParseInt(conf[k]).value) else Text(conf[k]))
  {
    if "device" !in conf then Failure(MissingKey("device"))
    else if "speed" !in conf then Failure(MissingKey("speed"))
    else match ConvertKeys(Remaining(conf), IntegerKeys)
      case Success(options) => Success(SerialSettings(conf["device"], conf["speed"], options))
      case Failure(e) => Failure(e)
  }
}
