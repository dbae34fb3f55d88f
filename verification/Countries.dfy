/** The country tables of apps/api/src/agent/autofill.py. */
module Countries {
  import opened Prelude

  /** Country to primary language and currency. */
  function Country(code: string): (r: Option<(string, string)>)
    ensures r.Some? ==> |code| == 2 && 'A' <= code[0] <= 'Z' && 'A' <= code[1] <= 'Z'
  {
    if |code| != 2 then None
    else
      match code[0]
      case 'A' =>
        (match code[1]
         case 'E' => Some(("ar", "AED"))
         case 'T' => Some(("de", "EUR"))
         case 'U' => Some(("en", "AUD"))
         case _ => None)
      case 'B' =>
        (match code[1]
         case 'E' => Some(("nl", "EUR"))
         case 'G' => Some(("bg", "BGN"))
         case 'R' => Some(("pt", "BRL"))
         case _ => None)
      case 'C' =>
        (match code[1]
         case 'A' => Some(("en", "CAD"))
         case 'H' => Some(("de", "CHF"))
         case 'N' => Some(("zh", "CNY"))
         case 'Z' => Some(("cs", "CZK"))
         case _ => None)
      case 'D' =>
        (match code[1]
         case 'E' => Some(("de", "EUR"))
         case 'K' => Some(("da", "DKK"))
         case _ => None)
      case 'E' =>
        (match code[1]
         case 'E' => Some(("et", "EUR"))
         case 'S' => Some(("es", "EUR"))
         case _ => None)
      case 'F' =>
        (match code[1]
         case 'I' => Some(("fi", "EUR"))
         case 'R' => Some(("fr", "EUR"))
         case _ => None)
      case 'G' =>
        (match code[1]
         case 'B' => Some(("en", "GBP"))
         case 'R' => Some(("el", "EUR"))
         case _ => None)
      case 'H' =>
        (match code[1]
         case 'K' => Some(("zh", "HKD"))
         case 'R' => Some(("hr", "EUR"))
         case 'U' => Some(("hu", "HUF"))
         case _ => None)
      case 'I' =>
        (match code[1]
         case 'E' => Some(("en", "EUR"))
         case 'L' => Some(("he", "ILS"))
         case 'N' => Some(("en", "INR"))
         case 'S' => Some(("is", "ISK"))
         case 'T' => Some(("it", "EUR"))
         case _ => None)
      case 'J' =>
        (match code[1]
         case 'P' => Some(("ja", "JPY"))
         case _ => None)
      case 'K' =>
        (match code[1]
         case 'R' => Some(("ko", "KRW"))
         case _ => None)
      case 'L' =>
        (match code[1]
         case 'T' => Some(("lt", "EUR"))
         case 'U' => Some(("fr", "EUR"))
         case 'V' => Some(("lv", "EUR"))
         case _ => None)
      case 'M' =>
        (match code[1]
         case 'X' => Some(("es", "MXN"))
         case 'Y' => Some(("ms", "MYR"))
         case _ => None)
      case 'N' =>
        (match code[1]
         case 'L' => Some(("nl", "EUR"))
         case 'O' => Some(("nb", "NOK"))
         case 'Z' => Some(("en", "NZD"))
         case _ => None)
      case 'P' =>
        (match code[1]
         case 'H' => Some(("en", "PHP"))
         case 'L' => Some(("pl", "PLN"))
         case 'T' => Some(("pt", "EUR"))
         case _ => None)
      case 'R' =>
        (match code[1]
         case 'O' => Some(("ro", "RON"))
         case _ => None)
      case 'S' =>
        (match code[1]
         case 'A' => Some(("ar", "SAR"))
         case 'E' => Some(("sv", "SEK"))
         case 'G' => Some(("en", "SGD"))
         case 'I' => Some(("sl", "EUR"))
         case 'K' => Some(("sk", "EUR"))
         case _ => None)
      case 'T' =>
        (match code[1]
         case 'H' => Some(("th", "THB"))
         case 'R' => Some(("tr", "TRY"))
         case 'W' => Some(("zh", "TWD"))
         case _ => None)
      case 'U' =>
        (match code[1]
         case 'A' => Some(("uk", "UAH"))
         case 'S' => Some(("en", "USD"))
         case _ => None)
      case 'V' =>
        (match code[1]
         case 'N' => Some(("vi", "VND"))
         case _ => None)
      case 'Z' =>
        (match code[1]
         case 'A' => Some(("en", "ZAR"))
         case _ => None)
      case _ => None
  }

  /** The names a CRM export holds. Each leads to a country whose currency is known. */
  function CountryNamed(name: string): (r: Option<string>)
    ensures r.Some? ==> Country(r.value).Some?
  {
    if name == "united states" || name == "usa" || name == "america" then Some("US")
    else if name == "u.s." || name == "u.s.a." then Some("US")
    else if name == "united kingdom" || name == "uk" || name == "great britain" || name == "england" then Some("GB")
    else if name == "germany" || name == "deutschland" then Some("DE")
    else if name == "france" then Some("FR")
    else if name == "spain" then Some("ES")
    else if name == "italy" then Some("IT")
    else if name == "netherlands" || name == "holland" then Some("NL")
    else if name == "belgium" then Some("BE")
    else if name == "austria" then Some("AT")
    else CountryNamed2(name)
  }

  function CountryNamed2(name: string): (r: Option<string>)
    ensures r.Some? ==> Country(r.value).Some?
  {
    if name == "switzerland" then Some("CH")
    else if name == "sweden" then Some("SE")
    else if name == "norway" then Some("NO")
    else if name == "denmark" then Some("DK")
    else if name == "finland" then Some("FI")
    else if name == "iceland" then Some("IS")
    else if name == "ireland" then Some("IE")
    else if name == "poland" then Some("PL")
    else if name == "portugal" then Some("PT")
    else CountryNamed3(name)
  }

  function CountryNamed3(name: string): (r: Option<string>)
    ensures r.Some? ==> Country(r.value).Some?
  {
    if name == "czechia" || name == "czech republic" then Some("CZ")
    else if name == "slovakia" then Some("SK")
    else if name == "slovenia" then Some("SI")
    else if name == "hungary" then Some("HU")
    else if name == "romania" then Some("RO")
    else if name == "bulgaria" then Some("BG")
    else if name == "croatia" then Some("HR")
    else if name == "greece" then Some("GR")
    else if name == "estonia" then Some("EE")
    else CountryNamed4(name)
  }

  function CountryNamed4(name: string): (r: Option<string>)
    ensures r.Some? ==> Country(r.value).Some?
  {
    if name == "latvia" then Some("LV")
    else if name == "lithuania" then Some("LT")
    else if name == "luxembourg" then Some("LU")
    else if name == "canada" then Some("CA")
    else if name == "mexico" then Some("MX")
    else if name == "brazil" then Some("BR")
    else if name == "australia" then Some("AU")
    else if name == "new zealand" then Some("NZ")
    else if name == "india" then Some("IN")
    else CountryNamed5(name)
  }

  function CountryNamed5(name: string): (r: Option<string>)
    ensures r.Some? ==> Country(r.value).Some?
  {
    if name == "japan" then Some("JP")
    else if name == "china" then Some("CN")
    else if name == "south korea" || name == "korea" then Some("KR")
    else if name == "singapore" then Some("SG")
    else if name == "malaysia" then Some("MY")
    else if name == "thailand" then Some("TH")
    else if name == "vietnam" then Some("VN")
    else if name == "philippines" then Some("PH")
    else if name == "hong kong" then Some("HK")
    else CountryNamed6(name)
  }

  function CountryNamed6(name: string): (r: Option<string>)
    ensures r.Some? ==> Country(r.value).Some?
  {
    if name == "taiwan" then Some("TW")
    else if name == "israel" then Some("IL")
    else if name == "turkey" then Some("TR")
    else if name == "ukraine" then Some("UA")
    else if name == "south africa" then Some("ZA")
    else if name == "united arab emirates" || name == "uae" then Some("AE")
    else if name == "saudi arabia" then Some("SA")
    else None
  }

  // ----- names of two letters -----------------------------------------------------------

  lemma Long6(name: string)
    requires |name| == 2
    ensures CountryNamed6(name).None?
  {
  }

  lemma Long5(name: string)
    requires |name| == 2
    ensures CountryNamed5(name).None?
  {
    Long6(name);
  }

  lemma Long4(name: string)
    requires |name| == 2
    ensures CountryNamed4(name).None?
  {
    Long5(name);
  }

  lemma Long3(name: string)
    requires |name| == 2
    ensures CountryNamed3(name).None?
  {
    Long4(name);
  }

  lemma Long2(name: string)
    requires |name| == 2
    ensures CountryNamed2(name).None?
  {
    Long3(name);
  }

  /** The one name as short as a code, and it is not one. */
  lemma OnlyUk(name: string)
    requires |name| == 2 && CountryNamed(name).Some?
    ensures name == "uk" && Country("UK").None?
  {
    Long2(name);
  }
}
