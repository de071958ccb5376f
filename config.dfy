/** `core/core.go`: the configuration record and `CheckConfig`, the check
    that every required field is filled in.  Strings are sequences of
    Unicode code points (Go decodes its UTF-8 bytes the same way before
    testing for white space). */
module Configuration {
  import opened Wrappers

  /** `Host`: the settings of one node. */
  datatype Host = Host(
    serviceDirectory: string,
    userSSHKey: string,
    rootSSHKey: string,
    logDirectory: string,
    networkInterface: string,
    firewallRules: seq<string>,
    backup: seq<string>)

  /** `Config.Common`. */
  datatype Common = Common(
    projectName: string,
    packageName: string,
    logToFile: bool,
    logFile: string,
    logLevel: string,
    telegramChatID: int,
    telegramMaxCharacters: int,
    nextcloudHostname: string,
    nextcloudDirectory: string,
    backup: seq<string>)

  /** `Config.Nodes`. */
  datatype Nodes = Nodes(mars: Host, phobos: Host)

  datatype Config = Config(common: Common, nodes: Nodes)

  /** The part of the configuration a field belongs to: `Common`,
      `Nodes.Mars` or `Nodes.Phobos` in the error messages. */
  datatype Section = CommonSection | MarsSection | PhobosSection

  /** The name of a required field, as the key lists of `CheckConfig`
      spell it. */
  datatype Key =
    | ProjectName | PackageName | LogFile | LogLevel | NextcloudHostname | NextcloudDirectory
    | TelegramChatID | TelegramMaxCharacters | Backup
    | ServiceDirectory | UserSSHKey | RootSSHKey | LogDirectory | NetworkInterface | FirewallRules

  /** Which field `CheckConfig` found empty, and of which kind it is. */
  datatype ConfigError =
    | EmptyString(section: Section, key: Key)
    | EmptyInteger(section: Section, key: Key)
    | EmptyList(section: Section, key: Key)

  /** `unicode.IsSpace`: the Latin-1 spaces and the other code points with
      the Unicode White_Space property. */
  predicate IsSpace(c: char)
  {
    || c == '\t' || c == '\n' || c == '\U{B}' || c == '\U{C}' || c == '\r' || c == ' '
    || c == '\U{85}' || c == '\U{A0}' || c == '\U{1680}'
    || ('\U{2000}' <= c <= '\U{200A}')
    || c == '\U{2028}' || c == '\U{2029}' || c == '\U{202F}' || c == '\U{205F}' || c == '\U{3000}'
  }

  /** `s` without its leading white space. */
  function TrimLeft(s: string): string
  {
    if s != [] && IsSpace(s[0]) then TrimLeft(s[1..]) else s
  }

  /** `s` without its trailing white space. */
  function TrimRight(s: string): string
  {
    if s != [] && IsSpace(s[|s| - 1]) then TrimRight(s[..|s| - 1]) else s
  }

  /** `TrimLeft` drops a run of white space from the front and stops at
      the first other character. */
  lemma {:induction false} TrimLeftMeaning(s: string)
    ensures |TrimLeft(s)| <= |s| && TrimLeft(s) == s[|s| - |TrimLeft(s)|..]
    ensures forall i :: 0 <= i < |s| - |TrimLeft(s)| ==> IsSpace(s[i])
    ensures TrimLeft(s) != [] ==> !IsSpace(TrimLeft(s)[0])
  {
    if s != [] && IsSpace(s[0]) {
      var rest := s[1..];
      TrimLeftMeaning(rest);
      var r := TrimLeft(rest);
      assert TrimLeft(s) == r;
      assert s[|s| - |r|..] == rest[|rest| - |r|..];
      forall i | 1 <= i < |s| - |r| ensures IsSpace(s[i]) {
        assert s[i] == rest[i - 1];
      }
    }
  }

  /** `TrimRight` drops a run of white space from the back and stops at
      the last other character. */
  lemma {:induction false} TrimRightMeaning(s: string)
    ensures |TrimRight(s)| <= |s| && TrimRight(s) == s[..|TrimRight(s)|]
    ensures forall i :: |TrimRight(s)| <= i < |s| ==> IsSpace(s[i])
    ensures TrimRight(s) != [] ==> !IsSpace(TrimRight(s)[|TrimRight(s)| - 1])
  {
    if s != [] && IsSpace(s[|s| - 1]) {
      var init := s[..|s| - 1];
      TrimRightMeaning(init);
      var r := TrimRight(init);
      assert TrimRight(s) == r;
      assert s[..|r|] == init[..|r|];
      forall i | |r| <= i < |s| - 1 ensures IsSpace(s[i]) {
        assert s[i] == init[i];
      }
    }
  }

  /** `strings.TrimSpace`. */
  function TrimSpace(s: string): string
  {
    TrimRight(TrimLeft(s))
  }

  /** `StringIsEmpty`: nothing is left once the white space is trimmed. */
  predicate StringIsEmpty(s: string)
  {
    |TrimSpace(s)| == 0
  }

  /** A string is empty exactly when it is made of white space only. */
  lemma StringIsEmptyMeaning(s: string)
    ensures StringIsEmpty(s) <==> forall i :: 0 <= i < |s| ==> IsSpace(s[i])
  {
    var l := TrimLeft(s);
    TrimLeftMeaning(s);
    TrimRightMeaning(l);
    if !forall i :: 0 <= i < |s| ==> IsSpace(s[i]) {
      var k :| 0 <= k < |s| && !IsSpace(s[k]);
      assert k >= |s| - |l|;
      assert l[k - (|s| - |l|)] == s[k];
    }
  }

  /** `IntegerIsEmpty`: only zero; a negative value is not empty. */
  predicate IntegerIsEmpty(i: int)
  {
    i == 0
  }

  /** `ListIsEmpty`. */
  predicate ListIsEmpty<T>(l: seq<T>)
  {
    |l| == 0
  }

  const COMMON_STRING_KEYS: seq<Key> :=
    [ProjectName, PackageName, LogFile, LogLevel, NextcloudHostname, NextcloudDirectory]
  const COMMON_INTEGER_KEYS: seq<Key> := [TelegramChatID, TelegramMaxCharacters]
  const HOST_STRING_KEYS: seq<Key> :=
    [ServiceDirectory, UserSSHKey, RootSSHKey, LogDirectory, NetworkInterface]

  /** A part of the configuration the checks read by reflection:
      `Config.Common` or one node. */
  datatype Record = CommonRecord(c: Common) | HostRecord(h: Host)

  /** `reflect.ValueOf(rec).FieldByName(key).String()`; a key that names
      no string field of the record gives the empty string. */
  function StringField(rec: Record, key: Key): string
  {
    match rec
    case CommonRecord(c) =>
      (match key
       case ProjectName => c.projectName
       case PackageName => c.packageName
       case LogFile => c.logFile
       case LogLevel => c.logLevel
       case NextcloudHostname => c.nextcloudHostname
       case NextcloudDirectory => c.nextcloudDirectory
       case _ => "")
    case HostRecord(h) =>
      (match key
       case ServiceDirectory => h.serviceDirectory
       case UserSSHKey => h.userSSHKey
       case RootSSHKey => h.rootSSHKey
       case LogDirectory => h.logDirectory
       case NetworkInterface => h.networkInterface
       case _ => "")
  }

  /** `reflect.ValueOf(rec).FieldByName(key).Int()`. */
  function IntegerField(rec: Record, key: Key): int
  {
    match rec
    case CommonRecord(c) =>
      (match key
       case TelegramChatID => c.telegramChatID
       case TelegramMaxCharacters => c.telegramMaxCharacters
       case _ => 0)
    case HostRecord(_) => 0
  }

  /** The loop over string keys: the first key whose value is empty. */
  function FirstBlank(section: Section, keys: seq<Key>, rec: Record): Option<ConfigError>
  {
    if keys == [] then None
    else if StringIsEmpty(StringField(rec, keys[0])) then Some(EmptyString(section, keys[0]))
    else
      FirstBlank(section, keys[1..], rec)
  }

  /** The loop over integer keys: the first key whose value is zero. */
  function FirstZero(section: Section, keys: seq<Key>, rec: Record): Option<ConfigError>
  {
    if keys == [] then None
    else if IntegerIsEmpty(IntegerField(rec, keys[0])) then Some(EmptyInteger(section, keys[0]))
    else
      FirstZero(section, keys[1..], rec)
  }

  /** The checks of one node: its strings, then its firewall rules, then
      its backup list. */
  function CheckHost(section: Section, h: Host): Option<ConfigError>
  {
    var blank := FirstBlank(section, HOST_STRING_KEYS, HostRecord(h));
    if blank.Some? then blank
    else if ListIsEmpty(h.firewallRules) then Some(EmptyList(section, FirewallRules))
    else if ListIsEmpty(h.backup) then Some(EmptyList(section, Backup))
    else None
  }

  /** `Config.CheckConfig`: `nil`, or the first empty field. */
  function CheckConfig(c: Config): Option<ConfigError>
  {
    var blank := FirstBlank(CommonSection, COMMON_STRING_KEYS, CommonRecord(c.common));
    if blank.Some? then blank
    else
      var zero := FirstZero(CommonSection, COMMON_INTEGER_KEYS, CommonRecord(c.common));
      if zero.Some? then zero
      else if ListIsEmpty(c.common.backup) then Some(EmptyList(CommonSection, Backup))
      else
        var mars := CheckHost(MarsSection, c.nodes.mars);
        if mars.Some? then mars
        else CheckHost(PhobosSection, c.nodes.phobos)
  }

  /** One required field, in the order `CheckConfig` tests it: the error
      that names it and whether it is empty. */
  datatype Field = Field(error: ConfigError, empty: bool)

  /** The first empty field of a list: the reference that `CheckConfig` is
      measured against. */
  function FirstEmpty(fields: seq<Field>): (r: Option<ConfigError>)
    ensures r.None? <==> forall i :: 0 <= i < |fields| ==> !fields[i].empty
    ensures r.Some? ==> exists i :: 0 <= i < |fields| && fields[i] == Field(r.value, true)
                                  && forall j :: 0 <= j < i ==> !fields[j].empty
  {
    if fields == [] then None
    else if fields[0].empty then Some(fields[0].error)
    else
      var r := FirstEmpty(fields[1..]);
      assert forall i :: 1 <= i < |fields| ==> fields[i] == fields[1..][i - 1];
      r
  }

  lemma {:induction false} FirstEmptyAppend(a: seq<Field>, b: seq<Field>)
    ensures FirstEmpty(a + b) == if FirstEmpty(a).Some? then FirstEmpty(a) else FirstEmpty(b)
  {
    if a != [] {
      assert (a + b)[1..] == a[1..] + b;
      FirstEmptyAppend(a[1..], b);
    } else {
      assert a + b == b;
    }
  }

  function BlankFields(section: Section, keys: seq<Key>, rec: Record): (r: seq<Field>)
    ensures |r| == |keys|
    ensures forall i :: 0 <= i < |keys| ==> r[i] == Field(EmptyString(section, keys[i]), StringIsEmpty(StringField(rec, keys[i])))
  {
    if keys == [] then [] else [Field(EmptyString(section, keys[0]), StringIsEmpty(StringField(rec, keys[0])))] + BlankFields(section, keys[1..], rec)
  }

  function ZeroFields(section: Section, keys: seq<Key>, rec: Record): (r: seq<Field>)
    ensures |r| == |keys|
    ensures forall i :: 0 <= i < |keys| ==> r[i] == Field(EmptyInteger(section, keys[i]), IntegerIsEmpty(IntegerField(rec, keys[i])))
  {
    if keys == [] then [] else [Field(EmptyInteger(section, keys[0]), IntegerIsEmpty(IntegerField(rec, keys[0])))] + ZeroFields(section, keys[1..], rec)
  }

  /** The string loop reports the first empty field of its keys. */
  lemma {:induction false} FirstBlankIsFirstEmpty(section: Section, keys: seq<Key>, rec: Record)
    ensures FirstBlank(section, keys, rec) == FirstEmpty(BlankFields(section, keys, rec))
  {
    if keys != [] {
      FirstBlankIsFirstEmpty(section, keys[1..], rec);
      assert BlankFields(section, keys, rec)[1..] == BlankFields(section, keys[1..], rec);
    }
  }

  /** The integer loop reports the first zero field of its keys. */
  lemma {:induction false} FirstZeroIsFirstEmpty(section: Section, keys: seq<Key>, rec: Record)
    ensures FirstZero(section, keys, rec) == FirstEmpty(ZeroFields(section, keys, rec))
  {
    if keys != [] {
      FirstZeroIsFirstEmpty(section, keys[1..], rec);
      assert ZeroFields(section, keys, rec)[1..] == ZeroFields(section, keys[1..], rec);
    }
  }

  function HostFields(section: Section, h: Host): seq<Field>
  {
    BlankFields(section, HOST_STRING_KEYS, HostRecord(h))
      + [Field(EmptyList(section, FirewallRules), ListIsEmpty(h.firewallRules)),
         Field(EmptyList(section, Backup), ListIsEmpty(h.backup))]
  }

  /** Every required field of the configuration, in checking order. */
  function Fields(c: Config): seq<Field>
  {
    BlankFields(CommonSection, COMMON_STRING_KEYS, CommonRecord(c.common))
      + ZeroFields(CommonSection, COMMON_INTEGER_KEYS, CommonRecord(c.common))
      + [Field(EmptyList(CommonSection, Backup), ListIsEmpty(c.common.backup))]
      + HostFields(MarsSection, c.nodes.mars)
      + HostFields(PhobosSection, c.nodes.phobos)
  }

  lemma CheckHostInOrder(section: Section, h: Host)
    ensures CheckHost(section, h) == FirstEmpty(HostFields(section, h))
  {
    var tail := [Field(EmptyList(section, FirewallRules), ListIsEmpty(h.firewallRules)),
                 Field(EmptyList(section, Backup), ListIsEmpty(h.backup))];
    FirstBlankIsFirstEmpty(section, HOST_STRING_KEYS, HostRecord(h));
    FirstEmptyAppend(BlankFields(section, HOST_STRING_KEYS, HostRecord(h)), tail);
    assert tail[1..] == [tail[1]];
  }

  /** `CheckConfig` reports the first empty field in the order of the
      source's checks: the field it names is empty and every field
      checked before it is filled in. */
  lemma CheckConfigInOrder(c: Config)
    ensures CheckConfig(c) == FirstEmpty(Fields(c))
  {
    var a := BlankFields(CommonSection, COMMON_STRING_KEYS, CommonRecord(c.common));
    var b := ZeroFields(CommonSection, COMMON_INTEGER_KEYS, CommonRecord(c.common));
    var d := [Field(EmptyList(CommonSection, Backup), ListIsEmpty(c.common.backup))];
    var m := HostFields(MarsSection, c.nodes.mars);
    var p := HostFields(PhobosSection, c.nodes.phobos);
    FirstBlankIsFirstEmpty(CommonSection, COMMON_STRING_KEYS, CommonRecord(c.common));
    FirstZeroIsFirstEmpty(CommonSection, COMMON_INTEGER_KEYS, CommonRecord(c.common));
    CheckHostInOrder(MarsSection, c.nodes.mars);
    CheckHostInOrder(PhobosSection, c.nodes.phobos);
    FirstEmptyAppend(a + b + d + m, p);
    FirstEmptyAppend(a + b + d, m);
    FirstEmptyAppend(a + b, d);
    FirstEmptyAppend(a, b);
  }

  /** What `CheckConfig` reports: `nil` exactly when every required field
      is filled in; otherwise a field that is empty, every field checked
      before it being filled in. */
  lemma CheckConfigFirst(c: Config)
    ensures CheckConfig(c).None? <==> forall i :: 0 <= i < |Fields(c)| ==> !Fields(c)[i].empty
    ensures CheckConfig(c).Some? ==>
              exists i :: 0 <= i < |Fields(c)| && Fields(c)[i] == Field(CheckConfig(c).value, true)
                          && forall j :: 0 <= j < i ==> !Fields(c)[j].empty
  {
    CheckConfigInOrder(c);
  }

  /** A node is complete: every string set to something other than white
      space, and both lists non-empty. */
  predicate HostFilled(h: Host)
  {
    && !StringIsEmpty(h.serviceDirectory) && !StringIsEmpty(h.userSSHKey)
    && !StringIsEmpty(h.rootSSHKey) && !StringIsEmpty(h.logDirectory)
    && !StringIsEmpty(h.networkInterface)
    && |h.firewallRules| > 0 && |h.backup| > 0
  }

  /** The configuration is complete, field by field; `LogToFile` is not
      required. */
  predicate Filled(c: Config)
  {
    && !StringIsEmpty(c.common.projectName) && !StringIsEmpty(c.common.packageName)
    && !StringIsEmpty(c.common.logFile) && !StringIsEmpty(c.common.logLevel)
    && !StringIsEmpty(c.common.nextcloudHostname) && !StringIsEmpty(c.common.nextcloudDirectory)
    && c.common.telegramChatID != 0 && c.common.telegramMaxCharacters != 0
    && |c.common.backup| > 0
    && HostFilled(c.nodes.mars) && HostFilled(c.nodes.phobos)
  }

  lemma HostStringFieldsMeaning(section: Section, h: Host, f: seq<Field>)
    requires f == BlankFields(section, HOST_STRING_KEYS, HostRecord(h))
    ensures (forall i :: 0 <= i < |f| ==> !f[i].empty) <==>
              && !StringIsEmpty(h.serviceDirectory) && !StringIsEmpty(h.userSSHKey)
              && !StringIsEmpty(h.rootSSHKey) && !StringIsEmpty(h.logDirectory)
              && !StringIsEmpty(h.networkInterface)
  {
    HostStringFieldsAt(section, h, f);
  }

  lemma HostStringFieldsAt(section: Section, h: Host, f: seq<Field>)
    requires f == BlankFields(section, HOST_STRING_KEYS, HostRecord(h))
    ensures |f| == 5
    ensures f[0].empty == StringIsEmpty(h.serviceDirectory) && f[1].empty == StringIsEmpty(h.userSSHKey)
    ensures f[2].empty == StringIsEmpty(h.rootSSHKey) && f[3].empty == StringIsEmpty(h.logDirectory)
    ensures f[4].empty == StringIsEmpty(h.networkInterface)
  {
    assert StringField(HostRecord(h), HOST_STRING_KEYS[0]) == h.serviceDirectory;
    assert StringField(HostRecord(h), HOST_STRING_KEYS[1]) == h.userSSHKey;
    assert StringField(HostRecord(h), HOST_STRING_KEYS[2]) == h.rootSSHKey;
    assert StringField(HostRecord(h), HOST_STRING_KEYS[3]) == h.logDirectory;
    assert StringField(HostRecord(h), HOST_STRING_KEYS[4]) == h.networkInterface;
  }

  lemma HostFieldsMeaning(section: Section, h: Host)
    ensures (forall i :: 0 <= i < |HostFields(section, h)| ==> !HostFields(section, h)[i].empty) <==> HostFilled(h)
  {
    var f := BlankFields(section, HOST_STRING_KEYS, HostRecord(h));
    var tail := [Field(EmptyList(section, FirewallRules), ListIsEmpty(h.firewallRules)),
                 Field(EmptyList(section, Backup), ListIsEmpty(h.backup))];
    assert HostFields(section, h) == f + tail;
    HostStringFieldsMeaning(section, h, f);
    AllFilledAppend(f, tail);
    assert (forall i :: 0 <= i < |tail| ==> !tail[i].empty) <==> |h.firewallRules| > 0 && |h.backup| > 0 by {
      assert tail[0].empty == (|h.firewallRules| == 0) && tail[1].empty == (|h.backup| == 0);
    }
  }

  lemma CommonStringFieldsMeaning(m: Common, f: seq<Field>)
    requires f == BlankFields(CommonSection, COMMON_STRING_KEYS, CommonRecord(m))
    ensures (forall i :: 0 <= i < |f| ==> !f[i].empty) <==>
              && !StringIsEmpty(m.projectName) && !StringIsEmpty(m.packageName)
              && !StringIsEmpty(m.logFile) && !StringIsEmpty(m.logLevel)
              && !StringIsEmpty(m.nextcloudHostname) && !StringIsEmpty(m.nextcloudDirectory)
  {
    CommonStringFieldsAt(m, f);
  }

  lemma CommonStringFieldsAt(m: Common, f: seq<Field>)
    requires f == BlankFields(CommonSection, COMMON_STRING_KEYS, CommonRecord(m))
    ensures |f| == 6
    ensures f[0].empty == StringIsEmpty(m.projectName) && f[1].empty == StringIsEmpty(m.packageName)
    ensures f[2].empty == StringIsEmpty(m.logFile) && f[3].empty == StringIsEmpty(m.logLevel)
    ensures f[4].empty == StringIsEmpty(m.nextcloudHostname) && f[5].empty == StringIsEmpty(m.nextcloudDirectory)
  {
    assert StringField(CommonRecord(m), COMMON_STRING_KEYS[0]) == m.projectName;
    assert StringField(CommonRecord(m), COMMON_STRING_KEYS[1]) == m.packageName;
    assert StringField(CommonRecord(m), COMMON_STRING_KEYS[2]) == m.logFile;
    assert StringField(CommonRecord(m), COMMON_STRING_KEYS[3]) == m.logLevel;
    assert StringField(CommonRecord(m), COMMON_STRING_KEYS[4]) == m.nextcloudHostname;
    assert StringField(CommonRecord(m), COMMON_STRING_KEYS[5]) == m.nextcloudDirectory;
  }

  lemma CommonIntegerFieldsMeaning(m: Common, f: seq<Field>)
    requires f == ZeroFields(CommonSection, COMMON_INTEGER_KEYS, CommonRecord(m))
    ensures (forall i :: 0 <= i < |f| ==> !f[i].empty) <==>
              m.telegramChatID != 0 && m.telegramMaxCharacters != 0
  {
    assert f[0].empty == (m.telegramChatID == 0);
    assert f[1].empty == (m.telegramMaxCharacters == 0);
  }

  lemma CommonFieldsMeaning(c: Config, f: seq<Field>)
    requires f == BlankFields(CommonSection, COMMON_STRING_KEYS, CommonRecord(c.common))
                  + ZeroFields(CommonSection, COMMON_INTEGER_KEYS, CommonRecord(c.common))
                  + [Field(EmptyList(CommonSection, Backup), ListIsEmpty(c.common.backup))]
    ensures (forall i :: 0 <= i < |f| ==> !f[i].empty) <==>
              && !StringIsEmpty(c.common.projectName) && !StringIsEmpty(c.common.packageName)
              && !StringIsEmpty(c.common.logFile) && !StringIsEmpty(c.common.logLevel)
              && !StringIsEmpty(c.common.nextcloudHostname) && !StringIsEmpty(c.common.nextcloudDirectory)
              && c.common.telegramChatID != 0 && c.common.telegramMaxCharacters != 0
              && |c.common.backup| > 0
  {
    var a := BlankFields(CommonSection, COMMON_STRING_KEYS, CommonRecord(c.common));
    var b := ZeroFields(CommonSection, COMMON_INTEGER_KEYS, CommonRecord(c.common));
    var d := [Field(EmptyList(CommonSection, Backup), ListIsEmpty(c.common.backup))];
    CommonStringFieldsMeaning(c.common, a);
    CommonIntegerFieldsMeaning(c.common, b);
    AllFilledAppend(a + b, d);
    AllFilledAppend(a, b);
    assert (forall i :: 0 <= i < |d| ==> !d[i].empty) <==> |c.common.backup| > 0 by {
      assert d[0].empty == (|c.common.backup| == 0);
    }
  }

  lemma AllFilledAppend(a: seq<Field>, b: seq<Field>)
    ensures (forall i :: 0 <= i < |a + b| ==> !(a + b)[i].empty)
            <==> (forall i :: 0 <= i < |a| ==> !a[i].empty) && (forall i :: 0 <= i < |b| ==> !b[i].empty)
  {
    if forall i :: 0 <= i < |a| ==> !a[i].empty {
      if forall i :: 0 <= i < |b| ==> !b[i].empty {
        forall i | 0 <= i < |a + b| ensures !(a + b)[i].empty {
          if i >= |a| { assert (a + b)[i] == b[i - |a|]; }
        }
      }
    }
    if forall i :: 0 <= i < |a + b| ==> !(a + b)[i].empty {
      forall i | 0 <= i < |a| ensures !a[i].empty {
        assert (a + b)[i] == a[i];
      }
      forall i | 0 <= i < |b| ensures !b[i].empty {
        assert (a + b)[|a| + i] == b[i];
      }
    }
  }

  /** `CheckConfig` returns `nil` exactly when the configuration is
      complete, field by field. */
  lemma CheckConfigMeaning(c: Config)
    ensures CheckConfig(c).None? <==> Filled(c)
  {
    var f := BlankFields(CommonSection, COMMON_STRING_KEYS, CommonRecord(c.common))
               + ZeroFields(CommonSection, COMMON_INTEGER_KEYS, CommonRecord(c.common))
               + [Field(EmptyList(CommonSection, Backup), ListIsEmpty(c.common.backup))];
    var m := HostFields(MarsSection, c.nodes.mars);
    var p := HostFields(PhobosSection, c.nodes.phobos);
    CheckConfigFirst(c);
    assert Fields(c) == f + m + p;
    AllFilledAppend(f + m, p);
    AllFilledAppend(f, m);
    CommonFieldsMeaning(c, f);
    HostFieldsMeaning(MarsSection, c.nodes.mars);
    HostFieldsMeaning(PhobosSection, c.nodes.phobos);
  }

  lemma {:induction false} BlankFieldsAgree(section: Section, keys: seq<Key>, v: Record, w: Record)
    requires forall k :: StringField(v, k) == StringField(w, k)
    ensures BlankFields(section, keys, v) == BlankFields(section, keys, w)
  {
    if keys != [] {
      BlankFieldsAgree(section, keys[1..], v, w);
    }
  }

  lemma {:induction false} ZeroFieldsAgree(section: Section, keys: seq<Key>, v: Record, w: Record)
    requires forall k :: IntegerField(v, k) == IntegerField(w, k)
    ensures ZeroFields(section, keys, v) == ZeroFields(section, keys, w)
  {
    if keys != [] {
      ZeroFieldsAgree(section, keys[1..], v, w);
    }
  }

  lemma FieldsIgnoreLogToFile(c: Config, b: bool)
    ensures Fields(c.(common := c.common.(logToFile := b))) == Fields(c)
  {
    var v := CommonRecord(c.common.(logToFile := b));
    var w := CommonRecord(c.common);
    BlankFieldsAgree(CommonSection, COMMON_STRING_KEYS, v, w);
    ZeroFieldsAgree(CommonSection, COMMON_INTEGER_KEYS, v, w);
  }

  /** `LogToFile` is never checked: changing it changes nothing in what
      `CheckConfig` reports. */
  lemma CheckConfigIgnoresLogToFile(c: Config, b: bool)
    ensures CheckConfig(c.(common := c.common.(logToFile := b))) == CheckConfig(c)
  {
    CheckConfigInOrder(c);
    CheckConfigInOrder(c.(common := c.common.(logToFile := b)));
    FieldsIgnoreLogToFile(c, b);
  }
}
