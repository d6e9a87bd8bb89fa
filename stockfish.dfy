/**
 * StockfishRepository (app/api/StockfishRepository.kt): one request to the analysis server, mapped to a move text.
 * The Retrofit client is the `Server` oracle: for each request and Authorization header it either answers with a
 * response or throws.
 */
module Stockfish {
  import opened Wrappers

  const DEFAULT_DEPTH := 15
  const DEFAULT_MULTI_PV := 1
  /** What analyzeFen answers when the server names no best move. */
  const NO_MOVE := "N/A"
  /** What analyzeFen answers when the call throws. */
  const ERROR := "Error"
  const BEARER := "Bearer "

  /** The request body: the FEN, the search depth and the number of principal variations. */
  datatype AnalysisRequest = AnalysisRequest(fen: string, depth: int, multiPv: int)

  /** The part of the server's response analyzeFen reads: the best move, which may be absent. */
  datatype AnalysisResponse = AnalysisResponse(bestMove: Option<string>)

  /** `api.analyzeFen(request, header)`: a response, or an exception (network, HTTP or parse failure). */
  type Server = (AnalysisRequest, Option<string>) -> Outcome<AnalysisResponse>

  /** `apiKey?.let { "Bearer $it" }`: a header exactly when a key is given, the key after the Bearer prefix. */
  function AuthorizationHeader(apiKey: Option<string>): (header: Option<string>)
    ensures header.Some? <==> apiKey.Some?
    ensures apiKey.Some? ==> |header.value| == |BEARER| + |apiKey.value|
    ensures apiKey.Some? ==> header.value[..|BEARER|] == BEARER && header.value[|BEARER|..] == apiKey.value
  {
    match apiKey
    case None => None
    case Some(key) => Some(BEARER + key)
  }

  /** The key back out of a header: the header carries its key and nothing else. */
  lemma AuthorizationHeaderInjective(k1: Option<string>, k2: Option<string>)
    requires AuthorizationHeader(k1) == AuthorizationHeader(k2)
    ensures k1 == k2
  {
    if k1.Some? {
      assert k1.value == AuthorizationHeader(k1).value[|BEARER|..];
    }
  }

  /**
   * `StockfishRepository.analyzeFen`: the server's best move verbatim; "N/A" when the response names none;
   * "Error" when the call throws. It never throws itself.
   */
  function AnalyzeFen(server: Server, fen: string, depth: int := DEFAULT_DEPTH, multiPv: int := DEFAULT_MULTI_PV,
                      apiKey: Option<string> := None): (move: string)
    ensures var reply := server(AnalysisRequest(fen, depth, multiPv), AuthorizationHeader(apiKey));
            move == ERROR || move == NO_MOVE || (reply.Returned? && reply.value.bestMove == Some(move))
  {
    match server(AnalysisRequest(fen, depth, multiPv), AuthorizationHeader(apiKey))
    case Threw => ERROR
    case Returned(response) => if response.bestMove.Some? then response.bestMove.value else NO_MOVE
  }

  /** The three outcomes of analyzeFen, one per shape of the server's answer to the single request it sends. */
  lemma AnalyzeFenOutcomes(server: Server, fen: string, depth: int, multiPv: int, apiKey: Option<string>)
    ensures var reply := server(AnalysisRequest(fen, depth, multiPv), AuthorizationHeader(apiKey));
            && (reply.Threw? ==> AnalyzeFen(server, fen, depth, multiPv, apiKey) == "Error")
            && (reply.Returned? && reply.value.bestMove.None? ==> AnalyzeFen(server, fen, depth, multiPv, apiKey) == "N/A")
            && (reply.Returned? && reply.value.bestMove.Some? ==>
                  AnalyzeFen(server, fen, depth, multiPv, apiKey) == reply.value.bestMove.value)
  {
  }

  /**
   * Unless the server itself names "Error" as a move, the answer is "Error" exactly when the call threw; likewise
   * for "N/A" and a response without a move.
   */
  lemma ErrorExactlyWhenThrown(server: Server, fen: string, depth: int, multiPv: int, apiKey: Option<string>)
    requires var reply := server(AnalysisRequest(fen, depth, multiPv), AuthorizationHeader(apiKey));
             reply.Returned? && reply.value.bestMove.Some? ==> reply.value.bestMove.value !in {"Error", "N/A"}
    ensures var reply := server(AnalysisRequest(fen, depth, multiPv), AuthorizationHeader(apiKey));
            && (AnalyzeFen(server, fen, depth, multiPv, apiKey) == "Error" <==> reply.Threw?)
            && (AnalyzeFen(server, fen, depth, multiPv, apiKey) == "N/A" <==> reply.Returned? && reply.value.bestMove.None?)
  {
  }

  /** analyzeFen consults the server on its one request only: servers that agree there give the same answer. */
  lemma OnlyItsRequestMatters(s1: Server, s2: Server, fen: string, depth: int, multiPv: int, apiKey: Option<string>)
    requires s1(AnalysisRequest(fen, depth, multiPv), AuthorizationHeader(apiKey))
          == s2(AnalysisRequest(fen, depth, multiPv), AuthorizationHeader(apiKey))
    ensures AnalyzeFen(s1, fen, depth, multiPv, apiKey) == AnalyzeFen(s2, fen, depth, multiPv, apiKey)
  {
  }

  /**
   * The top-level `analyzeFen(fen)`: the repository's answer with depth 15, one principal variation and no
   * Authorization header.
   */
  function AnalyzeFenWithDefaults(server: Server, fen: string): (move: string)
    ensures var reply := server(AnalysisRequest(fen, 15, 1), None);
            move == match reply
                    case Threw => "Error"
                    case Returned(response) => if response.bestMove.Some? then response.bestMove.value else "N/A"
  {
    AnalyzeFen(server, fen)
  }
}
