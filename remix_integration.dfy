/**
  The HTML rewriting of the Farcade integration script (remixIntegration.js):
  it inserts the Farcade SDK `<script>` tag into the game's page and edits the
  game's inline JavaScript with four textual rules, each a first-match
  `String.prototype.replace`. The script's file reading and writing are not
  modelled; the template arrives as an optional string and the output is
  returned.
*/
module RemixIntegration {
  import opened StringSearch

  // ---------------------------------------------------------------------------
  // The texts the script looks for and the texts it inserts
  // ---------------------------------------------------------------------------

  /** The closing head tag the SDK tag is placed before. */
  const HeadClose: string := "</head>"

  /** The SDK script tag, indented by four spaces. */
  const SdkScriptTag: string :=
    "    <script src=\"https://cdn.jsdelivr.net/npm/@farcade/game-sdk@latest/dist/index.min.js\"></script>"

  /** The SDK tag with the line break that ends it, as it is put before `</head>`. */
  const SdkLine: string := SdkScriptTag + "\n"

  /** The statement that wires the play button; rules 1 and 4 both insert after it. */
  const PlayButtonListener: string :=
    "document.getElementById('playButton').addEventListener('click', startGame);"

  /** Rule 1's block: announces `ready()` to the SDK. */
  const ReadySignalBlock: string :=
    "\n"
    + "\n"
    + "        // Farcade SDK: Signal that the game is fully loaded and ready to play\n"
    + "        if (window.FarcadeSDK) {\n"
    + "            window.FarcadeSDK.singlePlayer.actions.ready();\n"
    + "            console.log('Farcade SDK: Game ready signal sent.');\n"
    + "        }"

  /** Rule 2's outer pattern: the defeat branch of the game loop. */
  const DefeatPattern: Pattern := [
    "if (player.level <= 0) {",
    "gameRunning = false;",
    "// Keep music playing even on game over",
    "setTimeout(() => {",
    "location.reload();",
    "}, 100);",
    "}"
  ]

  /** Rule 2's inner pattern: the delayed reload inside the defeat branch. */
  const DefeatReloadPattern: Pattern := ["setTimeout(() => {", "location.reload();", "}, 100);"]

  /** Rule 2's replacement: report the score with `gameOver`, reload only without the SDK. */
  const DefeatReplacement: string :=
    "setTimeout(() => {\n"
    + "                            // Farcade SDK: Call gameOver with score, don't auto-restart if Farcade is present\n"
    + "                            if (window.FarcadeSDK) {\n"
    + "                                window.FarcadeSDK.singlePlayer.actions.gameOver({ score: player.score });\n"
    + "                                console.log('Farcade SDK: Game over signal sent with score:', player.score);\n"
    + "                                // Don't reload - wait for Farcade play_again signal\n"
    + "                            } else {\n"
    + "                                // Normal behavior: auto-restart\n"
    + "                                location.reload();\n"
    + "                            }\n"
    + "                        }, 100);"

  /** Rule 3's outer pattern: the victory branch. */
  const VictoryPattern: Pattern := [
    "} else {",
    "setTimeout(() => {",
    "document.body.removeChild(levelDisplay);",
    "// Victory - just reload without popup",
    "location.reload();",
    "}, 1000);",
    "}"
  ]

  /** Rule 3's inner pattern: the victory comment and the reload after it. */
  const VictoryReloadPattern: Pattern := ["// Victory - just reload without popup", "location.reload();"]

  /** Rule 3's replacement: report the target score with `gameOver`, reload only without the SDK. */
  const VictoryReplacement: string :=
    "// Farcade SDK: Call gameOver with final score, don't auto-restart if Farcade is present\n"
    + "                            if (window.FarcadeSDK) {\n"
    + "                                window.FarcadeSDK.singlePlayer.actions.gameOver({ score: targetScore });\n"
    + "                                console.log('Farcade SDK: Victory signal sent with final score:', targetScore);\n"
    + "                                // Don't reload - wait for Farcade play_again signal\n"
    + "                            } else {\n"
    + "                                // Normal behavior: auto-restart\n"
    + "                                location.reload();\n"
    + "                            }"

  /** Rule 4's block: handlers for the SDK's `play_again` and `toggle_mute` events. */
  const EventHandlersBlock: string :=
    "\n"
    + "\n"
    + "        // Farcade SDK: Register event handlers for 'play_again' and 'toggle_mute'\n"
    + "        if (window.FarcadeSDK) {\n"
    + "            // Handle play again requests from Farcade\n"
    + "            window.FarcadeSDK.on('play_again', () => {\n"
    + "                console.log('Farcade SDK: Play again requested.');\n"
    + "                // Simply reload the page to restart the game\n"
    + "                location.reload();\n"
    + "            });\n"
    + "\n"
    + "            // Handle mute/unmute requests from Farcade\n"
    + "            window.FarcadeSDK.on('toggle_mute', (data) => {\n"
    + "                console.log('Farcade SDK: Mute toggle requested, isMuted:', data.isMuted);\n"
    + "                \n"
    + "                if (data.isMuted) {\n"
    + "                    // Mute the music\n"
    + "                    if (currentTrack) {\n"
    + "                        currentTrack.volume = 0;\n"
    + "                    }\n"
    + "                    if (nextTrack) {\n"
    + "                        nextTrack.volume = 0;\n"
    + "                    }\n"
    + "                } else {\n"
    + "                    // Unmute the music\n"
    + "                    if (currentTrack) {\n"
    + "                        currentTrack.volume = 0.7;\n"
    + "                    }\n"
    + "                    if (nextTrack) {\n"
    + "                        nextTrack.volume = 0.7;\n"
    + "                    }\n"
    + "                }\n"
    + "                \n"
    + "                console.log('Farcade SDK: Music mute state set to:', data.isMuted);\n"
    + "            });\n"
    + "\n"
    + "            console.log('Farcade SDK: Event handlers registered.');\n"
    + "        }"

  /**
    The four pieces of JavaScript that `injectFarcadeGameLogic` inserts. The
    rules below take them as a value so that their properties are stated for
    any inserted text; the script's own texts are `FarcadeBlocks`.
  */
  datatype Blocks = Blocks(
    readySignal: string,
    defeatReplacement: string,
    victoryReplacement: string,
    eventHandlers: string)

  const FarcadeBlocks: Blocks :=
    Blocks(ReadySignalBlock, DefeatReplacement, VictoryReplacement, EventHandlersBlock)

  // ---------------------------------------------------------------------------
  // The operations
  // ---------------------------------------------------------------------------

  /**
    `injectFarcadeSDK`: the SDK tag and a line break go right before the first
    `</head>`; a page without `</head>` is returned unchanged.
  */
  function InjectSdk(html: string): (r: string)
    ensures IndexOf(html, HeadClose, 0).None? ==> r == html
    ensures IndexOf(html, HeadClose, 0).Some? ==>
      var i := IndexOf(html, HeadClose, 0).value;
      r == html[..i] + SdkLine + html[i..]
  {
    InsertBeforeFirst(html, HeadClose, SdkLine)
  }

  /** Rule 1: the ready signal goes right after the first play-button listener. */
  function ReadySignalRule(html: string, b: Blocks): string
  {
    InsertAfterFirst(html, PlayButtonListener, b.readySignal)
  }

  /** Rule 2: inside the first defeat branch, the delayed reload is replaced. */
  function DefeatRule(html: string, b: Blocks): string
  {
    ReplaceWithinFirst(html, DefeatPattern, DefeatReloadPattern, b.defeatReplacement)
  }

  /** Rule 3: inside the first victory branch, the comment and the reload after it are replaced. */
  function VictoryRule(html: string, b: Blocks): string
  {
    ReplaceWithinFirst(html, VictoryPattern, VictoryReloadPattern, b.victoryReplacement)
  }

  /** Rule 4: the event handlers go right after the first play-button listener. */
  function EventHandlersRule(html: string, b: Blocks): string
  {
    InsertAfterFirst(html, PlayButtonListener, b.eventHandlers)
  }

  /** The four rules in the order the script applies them. */
  function GameLogic(html: string, b: Blocks): string
  {
    EventHandlersRule(VictoryRule(DefeatRule(ReadySignalRule(html, b), b), b), b)
  }

  /** `injectFarcadeGameLogic`: the four rules with the script's own blocks. */
  function InjectGameLogic(html: string): string
  {
    GameLogic(html, FarcadeBlocks)
  }

  /**
    The rewriting part of `integrateFarcade`: a template that could not be read
    (`None`) or is empty aborts the run and nothing is written; any other
    template gets the SDK tag first and the game logic second.
  */
  function Integrate(template: Option<string>): (r: Option<string>)
    ensures r.None? <==> template.None? || template.value == ""
    ensures r.Some? ==> r.value == InjectGameLogic(InjectSdk(template.value))
  {
    match template
    case None => None
    case Some(t) => if t == "" then None else Some(InjectGameLogic(InjectSdk(t)))
  }

  // ---------------------------------------------------------------------------
  // Properties
  // ---------------------------------------------------------------------------

  /**
    The effect of rule 1: the ready signal is inserted right after the end of
    the first play-button listener; without one, the page is unchanged.
  */
  lemma ReadySignalRuleEffect(html: string, b: Blocks)
    ensures IndexOf(html, PlayButtonListener, 0).None? ==> ReadySignalRule(html, b) == html
    ensures IndexOf(html, PlayButtonListener, 0).Some? ==>
      var j := IndexOf(html, PlayButtonListener, 0).value + |PlayButtonListener|;
      ReadySignalRule(html, b) == html[..j] + b.readySignal + html[j..]
  {
  }

  /**
    The effect of rule 4: the event handlers are inserted right after the end
    of the first play-button listener; without one, the page is unchanged.
  */
  lemma EventHandlersRuleEffect(html: string, b: Blocks)
    ensures IndexOf(html, PlayButtonListener, 0).None? ==> EventHandlersRule(html, b) == html
    ensures IndexOf(html, PlayButtonListener, 0).Some? ==>
      var j := IndexOf(html, PlayButtonListener, 0).value + |PlayButtonListener|;
      EventHandlersRule(html, b) == html[..j] + b.eventHandlers + html[j..]
  {
  }

  /** A page on which none of the four rules finds its pattern comes back unchanged. */
  lemma GameLogicNoMatch(html: string, b: Blocks)
    requires IndexOf(html, PlayButtonListener, 0).None?
    requires FindChain(html, DefeatPattern, 0).None? && FindChain(html, VictoryPattern, 0).None?
    ensures GameLogic(html, b) == html
  {
  }

  /** Rule 2's reload pattern is fragments 3 to 5 of its defeat pattern; rule 3's is fragments 3 and 4 of its victory pattern. */
  lemma InnerPatternsAreRuns()
    ensures DefeatPattern[3..3 + |DefeatReloadPattern|] == DefeatReloadPattern
    ensures VictoryPattern[3..3 + |VictoryReloadPattern|] == VictoryReloadPattern
  {
  }

  /**
    The effect of rule 2: when the defeat branch is found, the first delayed
    reload inside it is found too, and exactly that span is replaced, the text
    before and after it being kept; without a defeat branch the page is
    unchanged.
  */
  lemma DefeatRuleEffect(html: string, b: Blocks)
    ensures FindChain(html, DefeatPattern, 0).None? ==> DefeatRule(html, b) == html
    ensures FindChain(html, DefeatPattern, 0).Some? ==>
      var m := FindChain(html, DefeatPattern, 0).value;
      && FindChain(html, DefeatReloadPattern, m.start).Some?
      && var n := FindChain(html, DefeatReloadPattern, m.start).value;
      && m.start <= n.start <= n.end <= m.end
      && DefeatRule(html, b) == html[..n.start] + b.defeatReplacement + html[n.end..]
  {
    if FindChain(html, DefeatPattern, 0).Some? {
      InnerPatternsAreRuns();
      ReplaceWithinEffect(html, DefeatPattern, DefeatReloadPattern, b.defeatReplacement, 3);
    }
  }

  /**
    The effect of rule 3: when the victory branch is found, the first victory
    comment inside it is found too, and exactly the span from that comment to
    the reload after it is replaced; without a victory branch the page is
    unchanged.
  */
  lemma VictoryRuleEffect(html: string, b: Blocks)
    ensures FindChain(html, VictoryPattern, 0).None? ==> VictoryRule(html, b) == html
    ensures FindChain(html, VictoryPattern, 0).Some? ==>
      var m := FindChain(html, VictoryPattern, 0).value;
      && FindChain(html, VictoryReloadPattern, m.start).Some?
      && var n := FindChain(html, VictoryReloadPattern, m.start).value;
      && m.start <= n.start <= n.end <= m.end
      && VictoryRule(html, b) == html[..n.start] + b.victoryReplacement + html[n.end..]
  {
    if FindChain(html, VictoryPattern, 0).Some? {
      InnerPatternsAreRuns();
      ReplaceWithinEffect(html, VictoryPattern, VictoryReloadPattern, b.victoryReplacement, 3);
    }
  }

  /** Rule 1 is not idempotent: applied twice, it inserts the ready signal twice. */
  lemma ReadySignalRuleTwice(html: string, b: Blocks)
    requires IndexOf(html, PlayButtonListener, 0).Some?
    ensures var j := IndexOf(html, PlayButtonListener, 0).value + |PlayButtonListener|;
      ReadySignalRule(ReadySignalRule(html, b), b) == html[..j] + b.readySignal + b.readySignal + html[j..]
    ensures b.readySignal != "" ==> ReadySignalRule(ReadySignalRule(html, b), b) != ReadySignalRule(html, b)
  {
    InsertAfterTwice(html, PlayButtonListener, b.readySignal, b.readySignal);
  }

  /**
    The SDK injection is not idempotent: the `</head>` it keeps is found again,
    so a second run adds a second SDK tag.
  */
  lemma InjectSdkTwice(html: string)
    requires IndexOf(html, HeadClose, 0).Some?
    ensures |InjectSdk(InjectSdk(html))| == |html| + 2 * |SdkLine|
    ensures InjectSdk(InjectSdk(html)) != InjectSdk(html)
  {
    InsertBeforeTwice(html, HeadClose, SdkLine);
  }

  /**
    Rule 2 keeps the first play-button listener followed by `block` when the
    span it replaces lies wholly after that block, or wholly before the
    listener with a replacement that cannot overlap a listener.
  */
  lemma DefeatRuleKeepsOrder(h: string, b: Blocks, block: string)
    requires AnchorThen(h, PlayButtonListener, block)
    requires SpanClear(h, DefeatPattern, DefeatReloadPattern, b.defeatReplacement, PlayButtonListener, block)
    ensures AnchorThen(DefeatRule(h, b), PlayButtonListener, block)
  {
    InnerPatternsAreRuns();
    ReplaceWithinKeepsAnchorThen(h, DefeatPattern, DefeatReloadPattern, b.defeatReplacement, 3, PlayButtonListener, block);
  }

  /** Rule 3 keeps the first play-button listener followed by `block`, under the same condition as rule 2. */
  lemma VictoryRuleKeepsOrder(h: string, b: Blocks, block: string)
    requires AnchorThen(h, PlayButtonListener, block)
    requires SpanClear(h, VictoryPattern, VictoryReloadPattern, b.victoryReplacement, PlayButtonListener, block)
    ensures AnchorThen(VictoryRule(h, b), PlayButtonListener, block)
  {
    InnerPatternsAreRuns();
    ReplaceWithinKeepsAnchorThen(h, VictoryPattern, VictoryReloadPattern, b.victoryReplacement, 3, PlayButtonListener, block);
  }

  /**
    Rules 1 and 4 share their anchor: when the spans rules 2 and 3 replace lie
    wholly before the first play-button listener (with replacements that cannot
    overlap one) or wholly after the ready signal, the first listener of the
    result is followed by the event handlers and then the ready signal.
  */
  lemma GameLogicOrder(html: string, b: Blocks)
    requires IndexOf(html, PlayButtonListener, 0).Some?
    requires SpanClear(ReadySignalRule(html, b), DefeatPattern, DefeatReloadPattern,
      b.defeatReplacement, PlayButtonListener, b.readySignal)
    requires SpanClear(DefeatRule(ReadySignalRule(html, b), b), VictoryPattern, VictoryReloadPattern,
      b.victoryReplacement, PlayButtonListener, b.readySignal)
    ensures AnchorThen(GameLogic(html, b), PlayButtonListener, b.eventHandlers + b.readySignal)
  {
    var h1 := ReadySignalRule(html, b);
    var h2 := DefeatRule(h1, b);
    var h3 := VictoryRule(h2, b);
    AnchorThenFound(html, PlayButtonListener);
    InsertAfterAnchorThen(html, PlayButtonListener, b.readySignal, []);
    assert b.readySignal + [] == b.readySignal;
    DefeatRuleKeepsOrder(h1, b, b.readySignal);
    VictoryRuleKeepsOrder(h2, b, b.readySignal);
    InsertAfterAnchorThen(h3, PlayButtonListener, b.eventHandlers, b.readySignal);
  }

  /** `injectFarcadeGameLogic` returns a page on which none of its four patterns matches unchanged. */
  lemma InjectGameLogicNoMatch(html: string)
    requires IndexOf(html, PlayButtonListener, 0).None?
    requires FindChain(html, DefeatPattern, 0).None? && FindChain(html, VictoryPattern, 0).None?
    ensures InjectGameLogic(html) == html
  {
    GameLogicNoMatch(html, FarcadeBlocks);
  }

  /**
    `injectFarcadeGameLogic` leaves its event handlers and then its ready
    signal right after the first play-button listener, under the conditions of
    `GameLogicOrder`.
  */
  lemma InjectGameLogicOrder(html: string)
    requires IndexOf(html, PlayButtonListener, 0).Some?
    requires SpanClear(ReadySignalRule(html, FarcadeBlocks), DefeatPattern, DefeatReloadPattern,
      FarcadeBlocks.defeatReplacement, PlayButtonListener, FarcadeBlocks.readySignal)
    requires SpanClear(DefeatRule(ReadySignalRule(html, FarcadeBlocks), FarcadeBlocks), VictoryPattern, VictoryReloadPattern,
      FarcadeBlocks.victoryReplacement, PlayButtonListener, FarcadeBlocks.readySignal)
    ensures AnchorThen(InjectGameLogic(html), PlayButtonListener, FarcadeBlocks.eventHandlers + FarcadeBlocks.readySignal)
  {
    GameLogicOrder(html, FarcadeBlocks);
  }
}
