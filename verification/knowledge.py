#!/usr/bin/env python3
"""Knowledge for LrTables.Right, from the tables of a Lemon parser.

usage: knowledge.py path/to/parse.c

Reads the tables and the rules out of a generated parser, computes for every
state code that can lie on the stack what is known of the entries beneath it
and how many reductions can follow, and lists every condition of
LrTables.Shaped and LrTables.Right that these do not meet.
"""
import re
import sys

src = open(sys.argv[1], errors="replace").read()


def code(name):
    return int(re.search(r"#define %s\s+\(?(-?\d+)" % name, src)[1])


def initializer(name):
    body = re.search(r"\b%s\[\]\s*=\s*\{(.*?)\n\};" % name, src, re.S)[1]
    return body


def numbers(name):
    return [int(x) for x in re.findall(r"-?\d+", re.sub(r"/\*.*?\*/", "", initializer(name), flags=re.S))]


max_shift, min_sr, max_sr = code("YY_MAX_SHIFT"), code("YY_MIN_SHIFTREDUCE"), code("YY_MAX_SHIFTREDUCE")
error, accept, min_reduce = code("YY_ERROR_ACTION"), code("YY_ACCEPT_ACTION"), code("YY_MIN_REDUCE")
n_token, wildcard = code("YYNTOKEN"), code("YYWILDCARD")
action, lookahead, default = numbers("yy_action"), numbers("yy_lookahead"), numbers("yy_default")
shift_ofst, reduce_ofst = numbers("yy_shift_ofst"), numbers("yy_reduce_ofst")
fallback, lhs = numbers("yyFallback"), numbers("yyRuleInfoLhs")
nrhs = [-n for n in numbers("yyRuleInfoNRhs")]
names = re.findall(r'"([^"]*)"', initializer("yyTokenName"))
rules = re.findall(r'"([^"]*)"', initializer("yyRuleName"))
symbol = {name: i for i, name in enumerate(names)}
rhs = [[{symbol[x] for x in place.split("|")} for place in rule.split("::=")[1].split()] for rule in rules]
start = lhs[[i for i, rule in enumerate(rules) if rule.startswith("input ")][0]]

failures = []


def expect(holds, *what):
    if not holds:
        failures.append(what)


# ---------- LrTables.Shaped ----------

expect(max_shift < min_sr <= max_sr < error < accept < min_reduce, "order of the action codes")
expect(len(lhs) == len(nrhs) == len(rules) == max_sr - min_sr + 1, "number of rules")
expect(len(shift_ofst) == len(default) == max_shift + 1 >= len(reduce_ofst), "number of states")
expect(len(action) <= len(lookahead) and all(x >= n_token for x in lookahead[len(action):]), "padding")
expect(wildcard < n_token >= len(fallback) and all(x >= n_token for x in lhs), "tokens and nonterminals")
expect(all(f < n_token and (f >= len(fallback) or fallback[f] == 0) for f in fallback if f), "fallbacks")


def find_shift(token, state):
    if state > max_shift:
        return state, token
    i = shift_ofst[state] + token
    if i < len(lookahead) and lookahead[i] == token:
        return action[i], token
    if token < len(fallback) and fallback[token]:
        return find_shift(fallback[token], state)
    j = shift_ofst[state] + wildcard
    if j < len(lookahead) and lookahead[j] == wildcard and token > 0:
        return action[j], wildcard
    return default[state], token


def goto(state, nonterminal):
    i = reduce_ofst[state] + nonterminal if state < len(reduce_ofst) else -1
    return action[i] if 0 <= i < len(action) and lookahead[i] == nonterminal else None


# ---------- the states that can lie on the stack ----------

below = {0: set()}  # for each code, the pairs of a state beneath it and the symbol pushed
actions = {}


def push(q, x, s):
    before = len(below.setdefault(s, set()))
    below[s].add((q, x))
    return len(below[s]) > before


def under(s, n):
    codes = {s}
    for _ in range(n):
        codes = {q for c in codes for q, _ in below[c]}
    return codes


grown = True
while grown:
    grown = False
    for s in list(below):
        actions[s] = actions.get(s) or [find_shift(token, s) for token in range(n_token)]
        for a, eff in actions[s]:
            if s <= max_shift and (a <= max_shift or min_sr <= a <= max_sr):
                grown |= push(s, eff, a if a <= max_shift else a + min_reduce - min_sr)
        for r in {a - min_reduce for a, _ in actions[s] if a >= min_reduce}:
            for q in under(s, nrhs[r]):
                if goto(q, lhs[r]) is not None:
                    grown |= push(q, lhs[r], goto(q, lhs[r]))

# ---------- how far down the claims reach ----------

reach = {s: 0 if s == 0 else 10**6 for s in below}
settled = False
while not settled:
    settled = True
    for s in below:
        n = min((reach[q] + 1 for q, _ in below[s]), default=0)
        if n < reach[s]:
            reach[s], settled = n, False


def entry(s, i):
    pairs = {pair for c in under(s, i) for pair in below[c]}
    return {x for _, x in pairs}, {q for q, _ in pairs}


known = {s: [entry(s, i) for i in range(reach[s])] for s in below}


def suits(y, wanted, seen):
    return y in wanted or any(
        lhs[r] not in seen and suits(lhs[r], wanted, seen | {lhs[r]})
        for r in range(len(rules)) if nrhs[r] == 1 and y in rhs[r][0])


# ---------- LrTables.Right ----------

expect(not below[0] and known[0] == [] and known.get(accept, [({start}, {0})]) == [({start}, {0})], "bottom and accept code")
suited = {}
for s in below:
    for r in {a - min_reduce for a, _ in actions[s] if a >= min_reduce}:
        expect(nrhs[r] <= len(known[s]), "right-hand side not there", s, rules[r])
        for i in range(min(nrhs[r], len(known[s]))):
            wanted = frozenset(rhs[r][nrhs[r] - 1 - i])
            for y in known[s][i][0]:
                if (y, wanted) not in suited:
                    suited[y, wanted] = suits(y, wanted, {y})
                expect(suited[y, wanted], "symbol does not suit", s, rules[r], names[y])
        for q in {s} if nrhs[r] == 0 else known[s][nrhs[r] - 1][1]:
            a = goto(q, lhs[r])
            expect(a is not None and (a <= max_shift or a >= min_reduce or (a == accept and q == 0 and lhs[r] == start)),
                   "goto", s, rules[r], q)
    for token, (a, _) in enumerate(actions[s]):
        expect(a <= max_shift or min_sr <= a <= max_sr or a >= min_reduce or a == error or a == accept == s,
               "action", s, names[token])
        expect(a < min_reduce or lhs[a - min_reduce] != start or token == 0, "early start rule", s, names[token])

# ---------- ranks: stack height and rank go down with every reduction ----------

highest = 0
for token in range(n_token):
    steps = [(s, goto(q, lhs[a - min_reduce]), 2 - nrhs[a - min_reduce])
             for s in below for a in [actions[s][token][0]] if a >= min_reduce
             for q in ({s} if nrhs[a - min_reduce] == 0 else known[s][nrhs[a - min_reduce] - 1][1])]
    rank, rounds, rising = {s: 0 for s in below}, 0, True
    while rising and rounds <= len(below) + 1:
        rising, rounds = False, rounds + 1
        for s, a, gain in steps:
            if rank[s] < rank[a] + gain:
                rank[s], rising = rank[a] + gain, True
    expect(not rising, "endless reductions", names[token])
    highest = max(highest, max(rank.values()))

print(len(below), "state codes, ranks up to", highest)
for failure in failures:
    print("not met:", *failure)
