# CHIP-8 emulator host layer (jaxe) in Dafny

This project models the host side of a CHIP-8 emulator: the part of
`src/main.c` that sits between the SDL library and the interpreter. Three
pieces have logic of their own, and each is a module here.

- **KeyMap** (`keymap.dfy`) is the keyboard decoder `SDLK_to_hex`. Sixteen
  keys of the left-hand QWERTY block (`1 2 3 4 / q w e r / a s d f / z x c v`)
  map to the sixteen hex-pad indices. Every other key maps to the sentinel
  `BAD_KEY` = 0x42.
- **Keypad** (`keypad.dfy`) is the per-frame input handler `handle_input`.
  Each keypad slot holds 0 (up), 1 (down) or 2 (released this frame). A frame
  first turns every 2 into 0. Then it folds the host's event queue in order:
  a key press writes 1, a key release writes 2, and a quit request raises the
  quit flag. The host event queue is an explicit `seq<Event>`.
- **Display** (`display.dfy`) is the renderer `draw_display` with its helper
  `set_pixel`. The 64×32 boolean framebuffer is scaled by `DISPLAY_SCALE` = 10
  into a row-major surface of 32-bit colours, using `ON_COLOR` = 0x00FF00 and
  `OFF_COLOR` = 0x000000. The surface is a value `Surface(w, h, pixels)`.
  Each operation returns the updated surface instead of writing through a
  pointer.

Each operation is stated against an independent partner:
- the decoder against its inverse `FromHex`;
- one event against the per-slot reference `SlotWrite`;
- a whole frame against `LastWrite`, which names the last event in the queue
  that touches a slot;
- a pixel write against the reader `Pixel`;
- the renderer against the sampler `Downscale`, which recovers the framebuffer
  from the rendered surface.

## Model

| member | source | states |
|---|---|---|
| KeyMap.ToHex | src/main.c:42-99 | A key decodes to an index below 16 exactly when it is one of the sixteen pad keys. It decodes to BAD_KEY (0x42) exactly when it is any other key. |
| KeyMap.FromHex | src/main.c:47-94 | Every pad index 0x0..0xF has a pad key that decodes to it, so the decoder is onto the pad. |
| KeyMap.FromToHex | src/main.c:47-94 | Decoding a pad key and looking its index up in the layout gives back the same key. |
| KeyMap.ToHexInjective | src/main.c:47-94 | Two pad keys that decode to the same index are the same key, so the sixteen values are pairwise distinct. |
| KeyMap.PadKeysCoverPad | src/main.c:42-99 | The decoder maps the sixteen listed keys onto exactly {0x0..0xF}. No other key lands in that range. |
| Keypad.ReleaseKeys | src/main.c:103-110 | After the clean-up pass no slot holds 2. Every slot that held 2 holds 0, and every other slot keeps its value. |
| Keypad.ApplyEvent | src/main.c:114-133 | A press of a pad key sets only that key's slot, to 1. A release sets it to 2. An unmapped key or another event type leaves the state unchanged. A quit request raises the flag and nothing lowers it. |
| Keypad.LastWrite | src/main.c:112-134 | A queue writes a slot exactly when at least one of its events is a press or release of that slot's key. Any value it writes is 1 or 2 and comes from one of those events. The two lemmas below show the last such event decides the slot. |
| Keypad.HandleInput | src/main.c:101-135 | A slot ends with the value written by the last queued event for its key. A slot with no such event keeps its cleaned-up value. Quit ends true exactly when it was true or the queue held a quit request. Slots in {0,1,2} stay in {0,1,2}. |
| Keypad.LastWriteIsLast | src/main.c:112-134 | When event i writes a slot and no later event does, event i decides that slot. |
| Keypad.LastWriteAppend | src/main.c:112-134 | Events apply in queue order. On a concatenated queue, a write in the later part overrides any write in the earlier part. |
| Keypad.SecondKeyEventWins | src/main.c:118-133 | Two key events for the same pad key in a row leave the state the second event alone would leave. |
| Display.Index | src/main.c:18-22 | The row-major write position y*w + x of an in-bounds pixel lies inside the w×h pixel array. |
| Display.IndexInjective | src/main.c:21 | Distinct in-bounds pixels have distinct row-major positions. |
| Display.SetPixel | src/main.c:18-22 | Pixel (x, y) takes ON_COLOR or OFF_COLOR according to `on`. Every other pixel keeps its colour. |
| Display.BlockShade | src/main.c:30-34 | Every surface pixel of the 10×10 block drawn for framebuffer pixel (x, y) gets that pixel's colour. |
| Display.FillBlock | src/main.c:30-36 | The two inner loops fill the 10×10 block for one framebuffer pixel with its colour and touch nothing else. |
| Display.DrawDisplay | src/main.c:24-38 | Every surface pixel (X, Y) with X < 640 and Y < 320 gets the colour of `display[Y/10][X/10]`. Pixels beyond that area keep their colour. Sampling the result gives back the framebuffer. |

## Left out

- The interpreter (`chip8_init`, `chip8_load_font`, `chip8_load_rom`, `chip8_execute`, `chip8_handle_timers`) and `chip8.h`: these are not part of this model. Their source is not in `src/main.c`.
- `MAX_WIDTH`, `MAX_HEIGHT` and `MAX_KEYS` come from `chip8.h`. They are fixed here at 64, 32 and 16. The first two are the machine's 64×32 framebuffer size. The third is the pad size, because `handle_input` writes indices 0x0..0xF without a bounds check.
- SDL and SDL_mixer setup and teardown, window creation, `Mix_*` sound loading and playback, `beep`, `SDL_UpdateWindowSurface` and the `main` loop (src/main.c:137-206): I/O and foreign library calls with no logic to state.
- `SDL_PollEvent` is replaced by the event sequence given to `HandleInput`. SDL's own queue is not modelled.
- `srand(time(NULL))`: nondeterministic seeding.
- Surface layout: the surface is taken to have a pitch of exactly `w` pixels with no row padding, as `set_pixel` assumes. The surface's pixel format is not modelled.
- Key codes: every key code other than the sixteen listed ones is the single constructor `Other`. The numeric SDL key codes are not modelled.
- Event types: only quit, key-up and key-down are told apart. Every other SDL event type is `OtherEvent`.
- Keypad slot values: each slot holds 0 (up), 1 (down) or 2 (released this frame), as `handle_input` writes them. The model keeps all three values.
- Display.SetPixel: the coordinates must lie inside the surface. The C `set_pixel` takes signed `int` coordinates and does no bounds check. An x past the end of a row writes into the next row, and a negative or past-the-end position is undefined behaviour. The only caller, `draw_display`, always stays in bounds.
- Display.DrawDisplay: it accepts any surface of at least 640×320 pixels. The source only ever draws into the exact 640×320 window surface it creates.
