/** The border router's web page: `httpd_simple_get_script` hands out `generate_routes`
    for every request, and that script sends the page head and the page tail and nothing
    between them. */
module RoutesPage {

  const Top: string := "<html><head><title>ContikiRPL</title></head><body>\n"
  const Bottom: string := "</body></html>\n"

  /** The scripts the simple web server can run; this gateway has one. */
  datatype Script = GenerateRoutes

  /** `httpd_simple_get_script`: the same script whatever the request name. */
  function GetScript(name: string): (script: Script)
  {
    GenerateRoutes
  }

  /** The strings a script sends, in order, with `SEND_STRING`. */
  function Sent(script: Script): (chunks: seq<string>)
  {
    match script
    case GenerateRoutes => [Top, Bottom]
  }

  /** The concatenation of the chunks sent on the socket. */
  function Flatten(chunks: seq<string>): (s: string)
  {
    if chunks == [] then "" else chunks[0] + Flatten(chunks[1..])
  }

  /** The page body the server sends for a request for `name`. */
  function Page(name: string): (body: string)
  {
    Flatten(Sent(GetScript(name)))
  }

  /** Every request gets the same page: the head immediately followed by the tail. */
  lemma {:induction false} PageIsTopThenBottom(name: string)
    ensures Page(name) == Top + Bottom
    ensures |Page(name)| == |Top| + |Bottom|
    ensures Page(name)[..|Top|] == Top && Page(name)[|Top|..] == Bottom
  {
    assert Sent(GetScript(name))[1..] == [Bottom];
    assert Flatten([Bottom]) == Bottom + Flatten([]);
  }

  /** The page does not depend on the request name. */
  lemma PageIndependentOfName(a: string, b: string)
    ensures Page(a) == Page(b)
  {
    PageIsTopThenBottom(a);
    PageIsTopThenBottom(b);
  }
}
