/** The filter dimensions the scraper asks for, per device type (get_device_filters). */
module DeviceFilters {
  import opened Text

  /** The fixed table, keyed by lower-case device type. */
  const FilterTable: map<string, seq<string>> := map[
    "phone" := ["storage", "color", "condition"],
    "laptop" := ["processor", "ram", "storage", "condition"],
    "tablet" := ["storage", "color", "condition"],
    "smartwatch" := ["color", "condition"],
    "camera" := ["type", "resolution", "condition"]
  ]

  /** The dimensions any device type can have. */
  const Dimensions: set<string> := {"storage", "color", "processor", "ram", "type", "resolution", "condition"}

  /** `filters.get(device_type.lower(), ['condition'])`. */
  function GetDeviceFilters(deviceType: string): (dims: seq<string>)
    ensures |dims| > 0 && dims[|dims| - 1] == "condition"
    ensures forall i :: 0 <= i < |dims| ==> dims[i] in Dimensions
    ensures forall i, j :: 0 <= i < j < |dims| ==> dims[i] != dims[j]
    ensures Lower(deviceType) in FilterTable ==> dims == FilterTable[Lower(deviceType)]
    ensures Lower(deviceType) !in FilterTable ==> dims == ["condition"]
  {
    var key := Lower(deviceType);
    if key in FilterTable then FilterTable[key] else ["condition"]
  }

  lemma LowerIdempotent(s: string)
    ensures Lower(Lower(s)) == Lower(s)
  {
  }

  /** The lookup ignores case: a device type and its lower-case form get the same dimensions. */
  lemma IgnoresCase(deviceType: string)
    ensures GetDeviceFilters(Lower(deviceType)) == GetDeviceFilters(deviceType)
  {
    LowerIdempotent(deviceType);
  }

  /** The fallback `['condition']` is returned exactly for the unknown device types:
      no entry of the table is `['condition']` alone. */
  lemma FallbackExactlyForUnknown(deviceType: string)
    ensures GetDeviceFilters(deviceType) == ["condition"] <==> Lower(deviceType) !in FilterTable
  {
    var key := Lower(deviceType);
    if key in FilterTable {
      assert key == "phone" || key == "laptop" || key == "tablet" || key == "smartwatch" || key == "camera";
      assert |FilterTable[key]| > 1;
    }
  }

  /** Examples: the lookup in upper or mixed case, and an unknown type. */
  lemma Examples()
    ensures GetDeviceFilters("Phone") == ["storage", "color", "condition"]
    ensures GetDeviceFilters("LAPTOP") == ["processor", "ram", "storage", "condition"]
    ensures GetDeviceFilters("drone") == ["condition"]
  {
    assert Lower("Phone") == "phone";
    assert Lower("LAPTOP") == "laptop";
    assert Lower("drone") == "drone";
  }
}
