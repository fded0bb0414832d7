/**
 The request URL of each device task: `snprintf` of `"%s/devices/<name>"`
 with the server URL into a 128-byte buffer, which the HTTP client then reads
 back as a C string. Text is handled as the bytes C stores, so every bound is
 a byte count.
 */
module Url {
  import opened CString

  /** Size of the URL buffer in bytes, terminator included. */
  const FullUrlSize: nat := 128

  /** The configured server base URL, "server_url", as ASCII bytes. */
  const ServerUrl: seq<byte> := [0x73, 0x65, 0x72, 0x76, 0x65, 0x72, 0x5F, 0x75, 0x72, 0x6C]

  /** The fixed part of the format string, "/devices/", as ASCII bytes. */
  const DevicesPath: seq<byte> := [0x2F, 0x64, 0x65, 0x76, 0x69, 0x63, 0x65, 0x73, 0x2F]

  /** The endpoint names of the three device tasks: "fan", "humidifier", "freshener". */
  const Fan: seq<byte> := [0x66, 0x61, 0x6E]
  const Humidifier: seq<byte> := [0x68, 0x75, 0x6D, 0x69, 0x64, 0x69, 0x66, 0x69, 0x65, 0x72]
  const Freshener: seq<byte> := [0x66, 0x72, 0x65, 0x73, 0x68, 0x65, 0x6E, 0x65, 0x72]

  /** The bytes the format would produce with no size limit: `%s` stops at the
      base's terminator, and the device name is part of the format string. */
  function Formatted(base: seq<byte>, device: seq<byte>): (t: seq<byte>)
    ensures Nul !in t
  {
    var b := CStr(base);
    var d := CStr(device);
    var t := b + DevicesPath + d;
    assert forall i :: 0 <= i < |t| ==> t[i] != Nul by {
      forall i | 0 <= i < |t| ensures t[i] != Nul {
        if i < |b| { assert t[i] == b[i]; }
        else if i < |b| + |DevicesPath| { assert t[i] == DevicesPath[i - |b|]; }
        else { assert t[i] == d[i - |b| - |DevicesPath|]; }
      }
    }
    t
  }

  /**
   The bytes `snprintf(buf, size, ...)` stores for `text`: as many bytes of the
   text as fit in `size - 1`, then a terminator.
   */
  function Snprintf(size: nat, text: seq<byte>): (written: seq<byte>)
    requires size > 0
    ensures 1 <= |written| <= size
    ensures |written| - 1 <= |text|
    ensures written[|written| - 1] == Nul
    ensures written[..|written| - 1] == text[..|written| - 1]
    ensures |text| < size ==> |written| == |text| + 1
    ensures |text| >= size ==> |written| == size
  {
    var k := if |text| < size then |text| else size - 1;
    text[..k] + [Nul]
  }

  /** The URL a device task requests: the string read back from its buffer. */
  function BuildUrl(base: seq<byte>, device: seq<byte>): (url: seq<byte>)
    ensures |url| <= FullUrlSize - 1
    ensures |url| <= |Formatted(base, device)|
    ensures url == Formatted(base, device)[..|url|]
    ensures |Formatted(base, device)| <= FullUrlSize - 1 ==> url == Formatted(base, device)
    ensures |Formatted(base, device)| > FullUrlSize - 1 ==> |url| == FullUrlSize - 1
  {
    var text := Formatted(base, device);
    var w := Snprintf(FullUrlSize, text);
    var k := |w| - 1;
    assert w == text[..k] + [Nul] + [];
    assert Nul !in text[..k] by {
      assert forall i :: 0 <= i < k ==> text[..k][i] == text[i];
    }
    UpToTerminated(text[..k], Nul, []);
    CStr(w)
  }

  /** A base URL and a device name free of NUL whose bytes fit together are
      requested in full. */
  lemma PlainUrl(base: seq<byte>, device: seq<byte>)
    requires Nul !in base && Nul !in device
    requires |base| + |DevicesPath| + |device| <= FullUrlSize - 1
    ensures BuildUrl(base, device) == base + DevicesPath + device
  {
    UpToNoStop(base, Nul);
    UpToNoStop(device, Nul);
  }

  /** The endpoint name of one of the three device tasks. */
  predicate IsDevice(device: seq<byte>)
  {
    device == Fan || device == Humidifier || device == Freshener
  }

  /** Each task requests `server_url/devices/<name>` in full. */
  lemma DeviceUrl(device: seq<byte>)
    requires IsDevice(device)
    ensures BuildUrl(ServerUrl, device) == ServerUrl + DevicesPath + device
  {
    PlainUrl(ServerUrl, device);
  }

  /**
   When both URLs fit in the buffer, tasks with different device names poll
   different endpoints, and equal names give equal endpoints.
   */
  lemma UrlsDistinct(base: seq<byte>, d1: seq<byte>, d2: seq<byte>)
    requires |Formatted(base, d1)| <= FullUrlSize - 1
    requires |Formatted(base, d2)| <= FullUrlSize - 1
    ensures BuildUrl(base, d1) == BuildUrl(base, d2) <==> CStr(d1) == CStr(d2)
  {
    var p := CStr(base) + DevicesPath;
    var t1 := Formatted(base, d1);
    var t2 := Formatted(base, d2);
    assert t1 == p + CStr(d1);
    assert t2 == p + CStr(d2);
    if t1 == t2 {
      assert t1[|p|..] == CStr(d1);
      assert t2[|p|..] == CStr(d2);
    }
  }

  /** Different device tasks request different URLs. */
  lemma DeviceUrlsDistinct(d1: seq<byte>, d2: seq<byte>)
    requires IsDevice(d1) && IsDevice(d2) && d1 != d2
    ensures BuildUrl(ServerUrl, d1) != BuildUrl(ServerUrl, d2)
  {
    DeviceUrl(d1);
    DeviceUrl(d2);
    assert |d1| != |d2|;
  }
}
