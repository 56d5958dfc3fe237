/** The fetcher: one HTTP GET per input, all sharing one agent and one cookie. */
module Api {
  import opened Inputs

  /** The HTTP agent's configuration, in seconds. */
  datatype Agent = Agent(readTimeout: nat, writeTimeout: nat)

  /** The agent built once per batch: 5-second read and write timeouts. */
  const BatchAgent: Agent := Agent(5, 5)

  /** What is handed to the network for one input. */
  datatype Request = Request(agent: Agent, url: string, cookie: string)

  /** The outcome of one request, as the downloader branches on it: a body
      read in full, an HTTP error status, or any other failure (connection,
      timeout, reading the body). */
  datatype FetchResult = Ok(body: string) | Status(code: int) | Transport

  /** The value of the `Cookie` header for a session token. */
  function SessionCookie(token: string): (c: string)
    ensures |c| == |token| + 8 && c[..8] == "session=" && c[8..] == token
  {
    "session=" + token
  }

  /** The request made for one input of a batch. */
  function RequestFor(input: AdvInput, token: string): Request
  {
    Request(BatchAgent, input.url, SessionCookie(token))
  }

  /** What the network answers, input by input, for a whole batch. */
  function Responses(inputs: seq<AdvInput>, token: string, http: Request -> FetchResult): (rs: seq<FetchResult>)
    ensures |rs| == |inputs|
    ensures forall i :: 0 <= i < |inputs| ==> rs[i] == http(RequestFor(inputs[i], token))
  {
    seq(|inputs|, i requires 0 <= i < |inputs| => http(RequestFor(inputs[i], token)))
  }

  /** `fetch_inputs`: the network is the oracle `http`; `sent` is the log of
      the requests handed to it, in the order they were made. */
  method FetchInputs(inputs: seq<AdvInput>, token: string, http: Request -> FetchResult)
    returns (out: seq<FetchResult>, sent: seq<Request>)
    ensures |out| == |inputs| && |sent| == |inputs|
    ensures forall i :: 0 <= i < |inputs| ==>
      sent[i] == Request(Agent(5, 5), inputs[i].url, "session=" + token)
    ensures forall i :: 0 <= i < |inputs| ==> out[i] == http(sent[i])
  {
    out, sent := [], [];
    var agent := Agent(5, 5);
    var cookie := SessionCookie(token);
    for i := 0 to |inputs|
      invariant |out| == i && |sent| == i
      invariant forall j :: 0 <= j < i ==> sent[j] == Request(agent, inputs[j].url, cookie)
      invariant forall j :: 0 <= j < i ==> out[j] == http(sent[j])
    {
      var request := Request(agent, inputs[i].url, cookie);
      var body := http(request);
      sent := sent + [request];
      out := out + [body];
    }
  }
}
